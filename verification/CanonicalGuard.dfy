/** The depth guards around the canonical digest, on one JSON value seen as text, as objects and as a value. */
module CanonicalGuard {
  import opened Prelude
  import opened Json
  import opened Repository
  import opened DepthWalk
  import opened Subject
  import DepthScan

  /** The value that parsing the text tree gives, up to its leaves; `keyOf` decodes the key of an entry. */
  ghost predicate Parses(keyOf: seq<DepthScan.Unit> -> string, node: DepthScan.Node, json: Json)
    decreases json
  {
    match json
    case Arr(items) =>
      && node.Array? && |node.items| == |items|
      && forall k :: 0 <= k < |items| ==> Parses(keyOf, node.items[k].node, items[k])
    case Obj(fields) =>
      && node.Object?
      && fields.Keys == (set e | e in node.entries :: keyOf(e.key))
      && forall e :: e in node.entries ==> keyOf(e.key) in fields && Parses(keyOf, e.value.node, fields[keyOf(e.key)])
    case _ => node.Literal? || node.Text?
  }

  lemma HeightOfParts(node: DepthScan.Node, limit: int)
    ensures Height(node) <= limit <==> limit >= 1 && forall k :: 0 <= k < |Parts(node)| ==> Height(Parts(node)[k]) <= limit - 1
  {
    if limit >= 1 {
      HighestBounds(node, Parts(node), limit - 1);
    }
  }

  lemma ArrayLevels(keyOf: seq<DepthScan.Unit> -> string, node: DepthScan.Node, items: seq<Json>, limit: int)
    requires Parses(keyOf, node, Arr(items))
    ensures |Parts(node)| == |items| && forall k :: 0 <= k < |items| ==> Parses(keyOf, Parts(node)[k], items[k])
    ensures HeightWithin(Arr(items), limit) <==> limit >= 1 && forall k :: 0 <= k < |items| ==> HeightWithin(items[k], limit - 1)
  {
  }

  lemma ObjectLevels(keyOf: seq<DepthScan.Unit> -> string, node: DepthScan.Node, fields: map<string, Json>, limit: int)
    requires Parses(keyOf, node, Obj(fields))
    ensures node.Object? && |Parts(node)| == |node.entries|
    ensures forall k :: 0 <= k < |Parts(node)| ==>
              Parts(node)[k] == node.entries[k].value.node && keyOf(node.entries[k].key) in fields
              && Parses(keyOf, node.entries[k].value.node, fields[keyOf(node.entries[k].key)])
    ensures HeightWithin(Obj(fields), limit) <==>
            limit >= 1 && forall k :: 0 <= k < |node.entries| ==> keyOf(node.entries[k].key) in fields && HeightWithin(fields[keyOf(node.entries[k].key)], limit - 1)
  {
    assert forall k :: 0 <= k < |node.entries| ==> node.entries[k] in node.entries;
    forall key | key in fields
      ensures exists k :: 0 <= k < |node.entries| && keyOf(node.entries[k].key) == key
    {
      var e :| e in node.entries && keyOf(e.key) == key;
    }
  }

  lemma LeafLevel(keyOf: seq<DepthScan.Unit> -> string, node: DepthScan.Node, json: Json, limit: int)
    requires Parses(keyOf, node, json) && !json.Arr? && !json.Obj?
    ensures HeightWithin(json, limit) <==> limit >= 1
    ensures Parts(node) == []
  {
  }

  lemma {:induction false} WithinMeansHeight(keyOf: seq<DepthScan.Unit> -> string, node: DepthScan.Node, json: Json, limit: int)
    requires Parses(keyOf, node, json)
    ensures HeightWithin(json, limit) <==> Height(node) <= limit
    decreases json
  {
    hide *;
    HeightOfParts(node, limit);
    match json
    case Arr(items) =>
      ArrayLevels(keyOf, node, items, limit);
      forall k | 0 <= k < |items|
        ensures HeightWithin(items[k], limit - 1) <==> Height(Parts(node)[k]) <= limit - 1
      {
        WithinMeansHeight(keyOf, Parts(node)[k], items[k], limit - 1);
      }
    case Obj(fields) =>
      ObjectLevels(keyOf, node, fields, limit);
      forall k | 0 <= k < |node.entries|
        ensures HeightWithin(fields[keyOf(node.entries[k].key)], limit - 1) <==> Height(Parts(node)[k]) <= limit - 1
      {
        WithinMeansHeight(keyOf, node.entries[k].value.node, fields[keyOf(node.entries[k].key)], limit - 1);
      }
    case _ =>
      LeafLevel(keyOf, node, json, limit);
  }

  /** The object walk before the canonical encoder decides exactly whether the value has a canonical digest. */
  lemma WalkGuardsDigest(codec: Codec, keyOf: seq<DepthScan.Unit> -> string, heap: Heap, id: Id, node: DepthScan.Node, json: Json)
    requires Closed(heap) && Represents(heap, id, node) && Parses(keyOf, node, json)
    ensures Visit(heap, id, 1, {}, MAX_JSON_DEPTH) <==> CanonicalSha256(codec, json).Some?
  {
    DigestMeansWithin(codec, json);
    hide *;
    WalkMeasuresHeight(heap, id, node, MAX_JSON_DEPTH);
    WithinMeansHeight(keyOf, node, json, MAX_JSON_DEPTH);
  }

  /**
   * A value with a digest always passes the scan. A text that passes the scan has none exactly when its height is one
   * more than the limit: 64 brackets deep, with a scalar or a further leaf at the bottom.
   */
  lemma ScanBeforeDigest(codec: Codec, keyOf: seq<DepthScan.Unit> -> string, e: DepthScan.Element, json: Json)
    requires DepthScan.ValidElement(e) && Parses(keyOf, e.node, json)
    ensures CanonicalSha256(codec, json).Some? ==> DepthScan.Within(DepthScan.START, DepthScan.PrintElement(e), MAX_JSON_DEPTH)
    ensures DepthScan.Within(DepthScan.START, DepthScan.PrintElement(e), MAX_JSON_DEPTH) ==>
              (CanonicalSha256(codec, json).None? <==> Height(e.node) == MAX_JSON_DEPTH + 1)
  {
    DigestMeansWithin(codec, json);
    assert MAX_JSON_DEPTH == 64;
    hide *;
    WithinMeansHeight(keyOf, e.node, json, MAX_JSON_DEPTH);
    HeightNearDepth(e.node);
    DepthScan.ScanMeasuresBracketDepth(e, MAX_JSON_DEPTH);
  }

  lemma DigestMeansWithin(codec: Codec, json: Json)
    ensures CanonicalSha256(codec, json).Some? <==> HeightWithin(json, MAX_JSON_DEPTH)
  {
    hide HeightWithin;
  }

  // A text that passes the scan and has no digest.

  function NestedNode(n: nat): DepthScan.Node {
    if n == 0 then DepthScan.Literal("1") else DepthScan.Array("", [DepthScan.Element("", NestedNode(n - 1), "")])
  }

  function NestedJson(n: nat): Json {
    if n == 0 then Num("1") else Arr([NestedJson(n - 1)])
  }

  lemma {:induction false} NestedParses(keyOf: seq<DepthScan.Unit> -> string, n: nat)
    ensures Parses(keyOf, NestedNode(n), NestedJson(n))
  {
    if n > 0 {
      NestedParses(keyOf, n - 1);
    }
  }

  lemma {:induction false} NestedDepth(n: nat)
    ensures DepthScan.Valid(NestedNode(n)) && DepthScan.BracketDepth(NestedNode(n)) == n
  {
    if n > 0 {
      NestedDepth(n - 1);
      var inner := DepthScan.Element("", NestedNode(n - 1), "");
      assert [inner][1..] == [] && [inner][0] == inner;
    }
  }

  lemma {:induction false} NestedHeight(n: nat)
    ensures Height(NestedNode(n)) == n + 1
  {
    if n == 0 {
      HeightOfParts(NestedNode(n), 1);
    } else {
      NestedHeight(n - 1);
      assert Parts(NestedNode(n)) == [NestedNode(n - 1)];
      assert Parts(NestedNode(n))[0] == NestedNode(n - 1);
      hide Height, NestedNode, Parts;
      HeightOfParts(NestedNode(n), n);
      HeightOfParts(NestedNode(n), n + 1);
    }
  }

  lemma NestedIs(keyOf: seq<DepthScan.Unit> -> string, n: nat)
    ensures DepthScan.Valid(NestedNode(n)) && DepthScan.BracketDepth(NestedNode(n)) == n && Height(NestedNode(n)) == n + 1
    ensures Parses(keyOf, NestedNode(n), NestedJson(n))
  {
    hide *;
    NestedParses(keyOf, n);
    NestedDepth(n);
    NestedHeight(n);
  }

  /** "a": node */
  function KeyA(node: DepthScan.Node): DepthScan.Entry {
    DepthScan.Entry("", [DepthScan.Raw('a')], "", DepthScan.Element("", node, ""))
  }

  /** {"a": node} */
  function Wrapped(node: DepthScan.Node): DepthScan.Node {
    DepthScan.Object("", [KeyA(node)])
  }

  lemma HeightOfOne(node: DepthScan.Node)
    ensures Height(Wrapped(node)) == 1 + Height(node)
  {
    assert Parts(Wrapped(node)) == [node];
    HeightOfParts(Wrapped(node), 1 + Height(node));
    HeightOfParts(Wrapped(node), Height(node));
    assert Parts(Wrapped(node))[0] == node;
  }

  lemma DepthOfOne(node: DepthScan.Node)
    requires DepthScan.Valid(node)
    ensures DepthScan.ValidElement(DepthScan.Element("", Wrapped(node), ""))
    ensures DepthScan.BracketDepth(Wrapped(node)) == 1 + DepthScan.BracketDepth(node)
  {
    var entries := [KeyA(node)];
    assert entries[1..] == [] && entries[0] == KeyA(node);
    assert DepthScan.EntriesDepth(entries) == DepthScan.Max(DepthScan.BracketDepth(node), 0);
  }

  lemma WrappedParses(keyOf: seq<DepthScan.Unit> -> string, node: DepthScan.Node, json: Json)
    requires keyOf([DepthScan.Raw('a')]) == "a" && Parses(keyOf, node, json)
    ensures Parses(keyOf, Wrapped(node), Obj(map["a" := json]))
  {
    assert Wrapped(node).entries == [KeyA(node)] && KeyA(node) in Wrapped(node).entries;
    assert forall e :: e in Wrapped(node).entries ==> e == KeyA(node);
  }

  /** A provider manifest that holds `1` in 63 nested arrays: the scan accepts the text, and there is no digest. */
  lemma DeepScalarHasNoDigest(codec: Codec, keyOf: seq<DepthScan.Unit> -> string, bytes: seq<bv8>)
    requires keyOf([DepthScan.Raw('a')]) == "a"
    requires codec.utf8(bytes) == Some(DepthScan.PrintElement(DepthScan.Element("", Wrapped(NestedNode(63)), "")))
    requires codec.loads(codec.utf8(bytes).value) == Some(Obj(map["a" := NestedJson(63)]))
    ensures var e := DepthScan.Element("", Wrapped(NestedNode(63)), "");
            && DepthScan.ValidElement(e) && Parses(keyOf, e.node, Obj(map["a" := NestedJson(63)]))
            && DepthScan.Within(DepthScan.START, DepthScan.PrintElement(e), MAX_JSON_DEPTH)
    ensures ProviderManifest(codec, bytes).Some? && ProviderSemanticSha256(codec, bytes).None?
  {
    assert MAX_JSON_DEPTH == 64;
    hide *;
    var node, json := NestedNode(63), NestedJson(63);
    var e := DepthScan.Element("", Wrapped(node), "");
    NestedIs(keyOf, 63);
    DepthOfOne(node);
    HeightOfOne(node);
    WrappedParses(keyOf, node, json);
    DepthScan.ScanMeasuresBracketDepth(e, MAX_JSON_DEPTH);
    ScanBeforeDigest(codec, keyOf, e, Obj(map["a" := json]));
    NoRecordsNoDetaching(codec, bytes, json);
  }

  lemma NoRecordsNoDetaching(codec: Codec, bytes: seq<bv8>, json: Json)
    requires codec.utf8(bytes).Some? && DepthScan.Within(DepthScan.START, codec.utf8(bytes).value, MAX_JSON_DEPTH)
    requires codec.loads(codec.utf8(bytes).value) == Some(Obj(map["a" := json]))
    ensures ProviderManifest(codec, bytes) == Some(Obj(map["a" := json]))
    ensures ProviderSemanticSha256(codec, bytes) == CanonicalSha256(codec, Obj(map["a" := json]))
  {
    hide DepthScan.Within, HeightWithin;
    assert "conformance_records" != "a" by {
      assert |"conformance_records"| != |"a"|;
    }
    assert "conformance_records" !in map["a" := json];
  }
}
