/** Texts whose objects repeat a key: plain parsing keeps the last entry, and the guards drift apart. */
module RepeatedKeys {
  import opened Prelude
  import opened Json
  import opened Repository
  import opened DepthScan
  import opened DepthWalk
  import opened Subject
  import opened CanonicalGuard

  /** The text tree of what parsing keeps: an entry gives its value to the place where its key came first. */
  function Pruned(keyOf: seq<Unit> -> string, node: Node): Node {
    match node
    case Literal(_) => node
    case Text(_) => node
    case Array(blank, items) => Array(blank, PrunedItems(keyOf, items))
    case Object(blank, entries) => Object(blank, PrunedEntries(keyOf, entries))
  }

  function PrunedItems(keyOf: seq<Unit> -> string, items: seq<Element>): seq<Element> {
    if items == [] then []
    else [Element(items[0].before, Pruned(keyOf, items[0].node), items[0].after)] + PrunedItems(keyOf, items[1..])
  }

  function PrunedEntries(keyOf: seq<Unit> -> string, entries: seq<DepthScan.Entry>): seq<DepthScan.Entry> {
    if entries == [] then []
    else
      var n := |entries| - 1;
      var last := entries[n];
      var value := Element(last.value.before, Pruned(keyOf, last.value.node), last.value.after);
      Put(keyOf, PrunedEntries(keyOf, entries[..n]), DepthScan.Entry(last.before, last.key, last.after, value))
  }

  /** Where the key is first. */
  function Place(keyOf: seq<Unit> -> string, entries: seq<DepthScan.Entry>, key: string): (k: Option<nat>)
    ensures k.Some? ==> k.value < |entries| && keyOf(entries[k.value].key) == key
    ensures k.None? ==> forall e :: e in entries ==> keyOf(e.key) != key
  {
    if entries == [] then None
    else if keyOf(entries[0].key) == key then Some(0)
    else
      var rest := Place(keyOf, entries[1..], key);
      if rest.Some? then Some(rest.value + 1) else None
  }

  /** One more entry for a dictionary: a new value in the place of its key, or a new place at the end. */
  function Put(keyOf: seq<Unit> -> string, kept: seq<DepthScan.Entry>, e: DepthScan.Entry): seq<DepthScan.Entry> {
    var k := Place(keyOf, kept, keyOf(e.key));
    if k.Some? then kept[k.value := kept[k.value].(value := e.value)] else kept + [e]
  }

  // Pruning builds the dictionary: keys in the order in which they came first, each with its last value.

  ghost predicate InFirstOrder(keyOf: seq<Unit> -> string, entries: seq<DepthScan.Entry>, kept: seq<DepthScan.Entry>) {
    && (forall k :: 0 <= k < |kept| ==> Place(keyOf, entries, keyOf(kept[k].key)).Some?)
    && (forall k, l :: 0 <= k < l < |kept| ==>
          Place(keyOf, entries, keyOf(kept[k].key)).value < Place(keyOf, entries, keyOf(kept[l].key)).value)
  }

  ghost predicate HasEveryKey(keyOf: seq<Unit> -> string, entries: seq<DepthScan.Entry>, kept: seq<DepthScan.Entry>) {
    forall e :: e in entries ==> Place(keyOf, kept, keyOf(e.key)).Some?
  }

  /** Entry j is the last of its key and gives the value. */
  ghost predicate LastOf(keyOf: seq<Unit> -> string, entries: seq<DepthScan.Entry>, j: int, kept: DepthScan.Entry) {
    && 0 <= j < |entries|
    && keyOf(entries[j].key) == keyOf(kept.key) && kept.value.node == Pruned(keyOf, entries[j].value.node)
    && forall i :: j < i < |entries| ==> keyOf(entries[i].key) != keyOf(kept.key)
  }

  ghost predicate HoldsLast(keyOf: seq<Unit> -> string, entries: seq<DepthScan.Entry>, kept: DepthScan.Entry) {
    exists j :: LastOf(keyOf, entries, j, kept)
  }

  ghost predicate HoldsLastValues(keyOf: seq<Unit> -> string, entries: seq<DepthScan.Entry>, kept: seq<DepthScan.Entry>) {
    forall k :: 0 <= k < |kept| ==> HoldsLast(keyOf, entries, kept[k])
  }

  lemma {:induction false} PlaceNext(keyOf: seq<Unit> -> string, entries: seq<DepthScan.Entry>, e: DepthScan.Entry, key: string)
    ensures Place(keyOf, entries + [e], key) ==
            if Place(keyOf, entries, key).Some? then Place(keyOf, entries, key)
            else if keyOf(e.key) == key then Some(|entries|) else None
  {
    if entries != [] {
      PlaceNext(keyOf, entries[1..], e, key);
      assert (entries + [e])[1..] == entries[1..] + [e];
    }
  }

  lemma {:induction false} PrunedIsDictionary(keyOf: seq<Unit> -> string, entries: seq<DepthScan.Entry>)
    ensures InFirstOrder(keyOf, entries, PrunedEntries(keyOf, entries))
    ensures HasEveryKey(keyOf, entries, PrunedEntries(keyOf, entries))
    ensures HoldsLastValues(keyOf, entries, PrunedEntries(keyOf, entries))
  {
    if entries != [] {
      var n := |entries| - 1;
      var front, last := entries[..n], entries[n];
      var value := Element(last.value.before, Pruned(keyOf, last.value.node), last.value.after);
      var e := DepthScan.Entry(last.before, last.key, last.after, value);
      assert entries == front + [last];
      PrunedIsDictionary(keyOf, front);
      var kept := PrunedEntries(keyOf, front);
      assert PrunedEntries(keyOf, entries) == Put(keyOf, kept, e);
      hide PrunedEntries, Pruned, Place;
      PutKeepsOrder(keyOf, front, last, kept, e);
      PutKeepsKeys(keyOf, front, last, kept, e);
      PutKeepsValues(keyOf, front, last, kept, e);
    }
  }

  /** Where the keys of the kept entries are first after one more entry. */
  lemma PlacesAfter(keyOf: seq<Unit> -> string, front: seq<DepthScan.Entry>, last: DepthScan.Entry, kept: seq<DepthScan.Entry>, k: nat)
    requires InFirstOrder(keyOf, front, kept) && k < |kept|
    ensures Place(keyOf, front, keyOf(kept[k].key)).Some?
    ensures Place(keyOf, front + [last], keyOf(kept[k].key)) == Place(keyOf, front, keyOf(kept[k].key))
  {
    PlaceNext(keyOf, front, last, keyOf(kept[k].key));
    hide Place;
  }

  lemma PutKeepsOrder(keyOf: seq<Unit> -> string, front: seq<DepthScan.Entry>, last: DepthScan.Entry, kept: seq<DepthScan.Entry>, e: DepthScan.Entry)
    requires InFirstOrder(keyOf, front, kept) && HasEveryKey(keyOf, front, kept) && e.key == last.key
    ensures InFirstOrder(keyOf, front + [last], Put(keyOf, kept, e))
  {
    hide Place;
    var next := Put(keyOf, kept, e);
    PlaceNext(keyOf, front, last, keyOf(last.key));
    forall k | 0 <= k < |kept|
      ensures keyOf(next[k].key) == keyOf(kept[k].key)
      ensures Place(keyOf, front, keyOf(kept[k].key)).Some?
      ensures Place(keyOf, front + [last], keyOf(kept[k].key)) == Place(keyOf, front, keyOf(kept[k].key))
    {
      PlacesAfter(keyOf, front, last, kept, k);
    }
  }

  lemma PutKeepsKeys(keyOf: seq<Unit> -> string, front: seq<DepthScan.Entry>, last: DepthScan.Entry, kept: seq<DepthScan.Entry>, e: DepthScan.Entry)
    requires HasEveryKey(keyOf, front, kept) && e.key == last.key
    ensures HasEveryKey(keyOf, front + [last], Put(keyOf, kept, e))
  {
    hide Place;
    var next := Put(keyOf, kept, e);
    forall x | x in front + [last]
      ensures Place(keyOf, next, keyOf(x.key)).Some?
    {
      if x in front {
        var k := Place(keyOf, kept, keyOf(x.key)).value;
        assert next[k] in next && keyOf(next[k].key) == keyOf(x.key);
      } else if |next| > |kept| {
        assert next[|kept|] in next;
      } else {
        var k := Place(keyOf, kept, keyOf(e.key)).value;
        assert next[k] in next && keyOf(next[k].key) == keyOf(x.key);
      }
    }
  }

  lemma PutKeepsValues(keyOf: seq<Unit> -> string, front: seq<DepthScan.Entry>, last: DepthScan.Entry, kept: seq<DepthScan.Entry>, e: DepthScan.Entry)
    requires HoldsLastValues(keyOf, front, kept) && InFirstOrder(keyOf, front, kept)
    requires e.key == last.key && e.value.node == Pruned(keyOf, last.value.node)
    ensures HoldsLastValues(keyOf, front + [last], Put(keyOf, kept, e))
  {
    hide Place, Pruned;
    var next, entries := Put(keyOf, kept, e), front + [last];
    forall k | 0 <= k < |next|
      ensures HoldsLast(keyOf, entries, next[k])
    {
      if keyOf(next[k].key) == keyOf(last.key) {
        assert k < |kept| ==> Place(keyOf, kept, keyOf(e.key)) == Some(k) by {
          OnePlace(keyOf, front, kept, keyOf(e.key), k);
        }
        assert LastOf(keyOf, entries, |front|, next[k]);
      } else {
        var j :| LastOf(keyOf, front, j, kept[k]);
        assert LastOf(keyOf, entries, j, next[k]);
      }
    }
  }

  lemma OnePlace(keyOf: seq<Unit> -> string, entries: seq<DepthScan.Entry>, kept: seq<DepthScan.Entry>, key: string, k: int)
    requires InFirstOrder(keyOf, entries, kept)
    ensures 0 <= k < |kept| && keyOf(kept[k].key) == key ==> Place(keyOf, kept, key) == Some(k)
  {
    if 0 <= k < |kept| && keyOf(kept[k].key) == key {
      assert kept[k] in kept;
      var l := Place(keyOf, kept, key).value;
      hide Place;
      assert !(k < l) && !(l < k);
    }
  }

  // Pruning never deepens.

  lemma {:induction false} DeepestBounds(entries: seq<DepthScan.Entry>, bound: nat)
    ensures EntriesDepth(entries) <= bound <==> forall e :: e in entries ==> BracketDepth(e.value.node) <= bound
  {
    if entries != [] {
      DeepestBounds(entries[1..], bound);
      assert forall e :: e in entries <==> e == entries[0] || e in entries[1..];
    }
  }

  lemma {:induction false} PrunedIsShallower(keyOf: seq<Unit> -> string, node: Node)
    ensures BracketDepth(Pruned(keyOf, node)) <= BracketDepth(node)
    decreases node, 0
  {
    match node
    case Literal(_) =>
    case Text(_) =>
    case Array(_, items) => ItemsAreShallower(keyOf, items);
    case Object(_, entries) =>
      DeepestBounds(entries, EntriesDepth(entries));
      EntriesAreShallower(keyOf, entries, EntriesDepth(entries));
      DeepestBounds(PrunedEntries(keyOf, entries), EntriesDepth(entries));
  }

  lemma {:induction false} ItemsAreShallower(keyOf: seq<Unit> -> string, items: seq<Element>)
    ensures ItemsDepth(PrunedItems(keyOf, items)) <= ItemsDepth(items)
    decreases items
  {
    if items != [] {
      PrunedIsShallower(keyOf, items[0].node);
      ItemsAreShallower(keyOf, items[1..]);
      assert PrunedItems(keyOf, items)[1..] == PrunedItems(keyOf, items[1..]);
    }
  }

  lemma {:induction false} EntriesAreShallower(keyOf: seq<Unit> -> string, entries: seq<DepthScan.Entry>, bound: nat)
    requires forall e :: e in entries ==> BracketDepth(e.value.node) <= bound
    ensures forall e :: e in PrunedEntries(keyOf, entries) ==> BracketDepth(e.value.node) <= bound
    decreases entries
  {
    if entries != [] {
      var n := |entries| - 1;
      assert entries[n] in entries;
      PrunedIsShallower(keyOf, entries[n].value.node);
      EntriesAreShallower(keyOf, entries[..n], bound);
      hide BracketDepth, Place;
    }
  }

  /** For every text, repeated keys included: a value of a text that passes the scan passes the walk one level up. */
  lemma ScanBoundsWalk(keyOf: seq<Unit> -> string, e: Element, heap: Heap, id: Id, limit: int)
    requires ValidElement(e) && Closed(heap) && Represents(heap, id, Pruned(keyOf, e.node)) && limit >= 0
    ensures Within(START, PrintElement(e), limit) ==> Visit(heap, id, 1, {}, limit + 1)
  {
    hide *;
    PrunedIsShallower(keyOf, e.node);
    HeightNearDepth(Pruned(keyOf, e.node));
    ScanMeasuresBracketDepth(e, limit);
    WalkMeasuresHeight(heap, id, Pruned(keyOf, e.node), limit + 1);
  }

  /** The walk over the parsed value says nothing of what was replaced: it accepts at L a text that the scan refuses at L
      exactly when the value is low and the text is deep. */
  lemma WalkMissesReplaced(keyOf: seq<Unit> -> string, e: Element, heap: Heap, id: Id, limit: int)
    requires ValidElement(e) && Closed(heap) && Represents(heap, id, Pruned(keyOf, e.node))
    ensures Visit(heap, id, 1, {}, limit) && !Within(START, PrintElement(e), limit) <==>
            Height(Pruned(keyOf, e.node)) <= limit < BracketDepth(e.node)
  {
    hide *;
    ScanMeasuresBracketDepth(e, limit);
    WalkMeasuresHeight(heap, id, Pruned(keyOf, e.node), limit);
    HeightAtLeastOne(Pruned(keyOf, e.node));
  }

  lemma HeightAtLeastOne(node: Node)
    ensures Height(node) >= 1
  {
  }

  /** As for all texts, a text one level below the limit of the scan has a digest. */
  lemma ScanBoundsDigest(codec: Codec, keyOf: seq<Unit> -> string, e: Element, json: Json)
    requires ValidElement(e) && Parses(keyOf, Pruned(keyOf, e.node), json)
    ensures Within(START, PrintElement(e), MAX_JSON_DEPTH - 1) ==> CanonicalSha256(codec, json).Some?
  {
    DigestMeansWithin(codec, json);
    assert MAX_JSON_DEPTH == 64;
    hide *;
    PrunedIsShallower(keyOf, e.node);
    HeightNearDepth(Pruned(keyOf, e.node));
    ScanMeasuresBracketDepth(e, MAX_JSON_DEPTH - 1);
    WithinMeansHeight(keyOf, Pruned(keyOf, e.node), json, MAX_JSON_DEPTH);
  }

  // One such text.

  /** {"a":x,"a":y} */
  function Twice(x: Node, y: Node): Node {
    Object("", [KeyA(x), KeyA(y)])
  }

  lemma TwiceIs(keyOf: seq<Unit> -> string, x: Node, y: Node)
    ensures Pruned(keyOf, Twice(x, y)) == Object("", [KeyA(Pruned(keyOf, y))])
    ensures BracketDepth(Twice(x, y)) >= 1 + BracketDepth(x)
    ensures Valid(x) && Valid(y) ==> ValidElement(Element("", Twice(x, y), ""))
  {
    var entries := [KeyA(x), KeyA(y)];
    assert entries[..1] == [KeyA(x)] && [KeyA(x)][..0] == [];
    hide BracketDepth, Valid;
    assert PrunedEntries(keyOf, [KeyA(x)]) == [KeyA(Pruned(keyOf, x))];
    assert PrunedEntries(keyOf, entries) == [KeyA(Pruned(keyOf, y))];
    DepthOfTwo(KeyA(x), KeyA(y));
    if Valid(x) && Valid(y) {
      ValidTwice(x, y);
    }
  }

  function KeyB(node: Node): DepthScan.Entry {
    DepthScan.Entry("", [Raw('b')], "", Element("", node, ""))
  }

  /** {"a":x,"b":y,"a":z} */
  function Interleaved(x: Node, y: Node, z: Node): Node {
    Object("", [KeyA(x), KeyB(y), KeyA(z)])
  }

  lemma InterleavedIs(keyOf: seq<Unit> -> string, x: Node, y: Node, z: Node)
    requires keyOf([Raw('a')]) != keyOf([Raw('b')])
    ensures Pruned(keyOf, Interleaved(x, y, z)) == Object("", [KeyA(Pruned(keyOf, z)), KeyB(Pruned(keyOf, y))])
  {
    var a, b, c := KeyA(x), KeyB(y), KeyA(z);
    assert [a, b, c][..2] == [a, b] && [a, b][..1] == [a] && [a][..0] == [];
    assert PrunedEntries(keyOf, [a]) == [KeyA(Pruned(keyOf, x))];
    assert PrunedEntries(keyOf, [a, b]) == [KeyA(Pruned(keyOf, x)), KeyB(Pruned(keyOf, y))];
  }

  /** {"a":1,"b":2,"a":[]} loads as {"a":[],"b":2}, in this order. */
  lemma InterleavedKey(keyOf: seq<Unit> -> string)
    requires keyOf([Raw('a')]) != keyOf([Raw('b')])
    ensures Represents(map[0 := Container([1, 2]), 1 := Container([]), 2 := Scalar], 0,
                       Pruned(keyOf, Interleaved(Literal("1"), Literal("2"), Array("", []))))
  {
    assert Pruned(keyOf, Array("", [])) == Array("", []) && Pruned(keyOf, Literal("2")) == Literal("2");
    InterleavedIs(keyOf, Literal("1"), Literal("2"), Array("", []));
    hide Pruned;
  }

  lemma DepthOfTwo(a: DepthScan.Entry, b: DepthScan.Entry)
    ensures BracketDepth(Object("", [a, b])) >= 1 + BracketDepth(a.value.node)
  {
  }

  lemma ValidTwice(x: Node, y: Node)
    requires Valid(x) && Valid(y)
    ensures ValidElement(Element("", Twice(x, y), ""))
  {
  }

  /** {"a":[[[1]]],"a":1}: the scan refuses the text at 3; the value is an object around a number, which the walk accepts at 2. */
  lemma RepeatedKeyDriftsApart(keyOf: seq<Unit> -> string, heap: Heap, id: Id)
    requires Closed(heap) && Represents(heap, id, Pruned(keyOf, Twice(NestedNode(3), NestedNode(0))))
    ensures var e := Element("", Twice(NestedNode(3), NestedNode(0)), "");
            ValidElement(e) && !Within(START, PrintElement(e), 3) && Visit(heap, id, 1, {}, 2)
  {
    var e := Element("", Twice(NestedNode(3), NestedNode(0)), "");
    assert Pruned(keyOf, NestedNode(0)) == NestedNode(0);
    hide *;
    NestedIs(keyOf, 3);
    NestedIs(keyOf, 0);
    TwiceIs(keyOf, NestedNode(3), NestedNode(0));
    HeightOfOne(NestedNode(0));
    ScanMeasuresBracketDepth(e, 3);
    WalkMeasuresHeight(heap, id, Pruned(keyOf, e.node), 2);
  }
}
