/**
 * The fetch side of the plugin: `processTranslation`, which turns one
 * (langcode, source, translation) triple into a `DrupalTranslation` node,
 * and the loop in `sourceNodes` that flattens the backend's response
 * `{ [langcode]: { [source]: translation } }` into one node per pair.
 *
 * The HTTP request is not modelled: the response body is an input. Gatsby's
 * `createNodeId` and `createContentDigest` are parameters, and `createNode`
 * is modelled by appending the node to the method's output sequence.
 */
module Translations {
  import opened Wrappers
  import opened Records
  import Json
  import Helpers

  const NodeType: string := "DrupalTranslation"
  const MediaType: string := "text/json"
  const IdPrefix: string := "drupal-translation-"

  /** Gatsby's `internal` block; `contentDigest` is `None` until the loop sets it. */
  datatype Internal = Internal(typeName: string, mediaType: string, content: string, contentDigest: Option<string>)

  /**
   * A `DrupalTranslation` node. `id` is `None` until the loop sets it, and
   * a `parent` of `None` is JavaScript's `null`.
   */
  datatype TranslationNode = TranslationNode(
    id: Option<string>,
    source: string,
    translation: string,
    langcode: string,
    parent: Option<string>,
    children: seq<string>,
    internal: Internal)

  /** The two Gatsby helpers the loop calls, as functions of their one argument. */
  datatype NodeHelpers = NodeHelpers(createNodeId: string -> string, createContentDigest: string -> string)

  /**
   * A response body: each language code with its (source, translation)
   * pairs, both levels in `Object.keys` order.
   */
  type ResponseData = seq<(string, seq<(string, string)>)>

  /** The keys of a JSON object, as a set. */
  function KeysOf<V>(entries: seq<(string, V)>): set<string>
  {
    set j | 0 <= j < |entries| :: entries[j].0
  }

  /** The keys of a JSON object are distinct. */
  predicate UniqueKeys<V>(entries: seq<(string, V)>)
  {
    forall a, b :: 0 <= a < b < |entries| ==> entries[a].0 != entries[b].0
  }

  /** A response body that a JSON object of objects can produce: no key repeats at either level. */
  predicate WellFormed(data: ResponseData)
  {
    && UniqueKeys(data)
    && forall i :: 0 <= i < |data| ==> UniqueKeys(data[i].1)
  }

  /** `processTranslation(langcode, source, translation)`. */
  function ProcessTranslation(langcode: string, source: string, translation: string): (n: TranslationNode)
    ensures n.source == source && n.translation == translation && n.langcode == langcode
    ensures n.parent == None && n.children == []
    ensures n.internal.typeName == NodeType && n.internal.mediaType == MediaType
    ensures n.id == None && n.internal.contentDigest == None
    ensures n.internal.content == Json.Serialize(TranslationRecord(source, translation, langcode))
    ensures Json.Deserialize(n.internal.content) == Some(TranslationRecord(source, translation, langcode))
  {
    var single := TranslationRecord(source, translation, langcode);
    Json.RoundTrip(single);
    TranslationNode(None, source, translation, langcode, None, [], Internal(NodeType, MediaType, Json.Serialize(single), None))
  }

  /** The string handed to `createNodeId`: the prefix, the langcode and the source, with no separator. */
  function IdSeed(langcode: string, source: string): string
  {
    IdPrefix + langcode + source
  }

  /** The node the loop body hands to `createNode` for one pair. */
  function NodeFor(langcode: string, source: string, translation: string, helpers: NodeHelpers): (n: TranslationNode)
    ensures n.source == source && n.translation == translation && n.langcode == langcode
    ensures n.parent == None && n.children == []
    ensures n.internal.typeName == NodeType && n.internal.mediaType == MediaType
    ensures n.id == Some(helpers.createNodeId(IdSeed(langcode, source)))
    ensures n.internal.content == Json.Serialize(TranslationRecord(source, translation, langcode))
    ensures n.internal.contentDigest == Some(helpers.createContentDigest(n.internal.content))
    ensures Json.Deserialize(n.internal.content) == Some(TranslationRecord(source, translation, langcode))
  {
    var n := ProcessTranslation(langcode, source, translation);
    var n := n.(id := Some(helpers.createNodeId(IdSeed(langcode, source))));
    n.(internal := n.internal.(contentDigest := Some(helpers.createContentDigest(n.internal.content))))
  }

  /** The records of one language's pairs, in order. */
  function LocaleRecords(langcode: string, entries: seq<(string, string)>): seq<TranslationRecord>
    decreases |entries|
  {
    if |entries| == 0 then []
    else
      var last := entries[|entries| - 1];
      LocaleRecords(langcode, entries[..|entries| - 1]) + [TranslationRecord(last.0, last.1, langcode)]
  }

  /** The records of a whole response body, language by language, in order. */
  function Flatten(data: ResponseData): seq<TranslationRecord>
    decreases |data|
  {
    if |data| == 0 then []
    else
      var last := data[|data| - 1];
      Flatten(data[..|data| - 1]) + LocaleRecords(last.0, last.1)
  }

  /** The finished node of each record, in the same order. */
  function NodesFor(recs: seq<TranslationRecord>, helpers: NodeHelpers): (nodes: seq<TranslationNode>)
    ensures |nodes| == |recs|
    ensures forall k :: 0 <= k < |recs| ==>
      && nodes[k].source == recs[k].source
      && nodes[k].translation == recs[k].translation
      && nodes[k].langcode == recs[k].langcode
      && nodes[k].id == Some(helpers.createNodeId(IdSeed(recs[k].langcode, recs[k].source)))
      && nodes[k].internal.content == Json.Serialize(recs[k])
      && nodes[k].internal.contentDigest == Some(helpers.createContentDigest(nodes[k].internal.content))
      && Json.Deserialize(nodes[k].internal.content) == Some(recs[k])
  {
    seq(|recs|, k requires 0 <= k < |recs| => NodeFor(recs[k].langcode, recs[k].source, recs[k].translation, helpers))
  }

  lemma NodesForSnoc(recs: seq<TranslationRecord>, r: TranslationRecord, helpers: NodeHelpers)
    ensures NodesFor(recs + [r], helpers) == NodesFor(recs, helpers) + [NodeFor(r.langcode, r.source, r.translation, helpers)]
  {
    var a := NodesFor(recs + [r], helpers);
    var b := NodesFor(recs, helpers) + [NodeFor(r.langcode, r.source, r.translation, helpers)];
    forall k | 0 <= k < |a| ensures a[k] == b[k] {
      if k < |recs| {
        assert (recs + [r])[k] == recs[k];
      }
    }
  }

  /**
   * The node-creating part of `sourceNodes`. `data` is `None` when the
   * response body is absent or falsy; then nothing is created. Otherwise
   * one finished node is created per pair, in `Object.keys` order.
   */
  method SourceNodes(data: Option<ResponseData>, helpers: NodeHelpers) returns (created: seq<TranslationNode>)
    ensures data.None? ==> created == []
    ensures data.Some? ==> created == NodesFor(Flatten(data.value), helpers)
  {
    created := [];
    if data.Some? {
      var languages := data.value;
      for i := 0 to |languages|
        invariant created == NodesFor(Flatten(languages[..i]), helpers)
      {
        assert languages[..i + 1][..i] == languages[..i];
        var langcode := languages[i].0;
        var entries := languages[i].1;
        ghost var done := Flatten(languages[..i]);
        assert done + LocaleRecords(langcode, entries[..0]) == done;
        for j := 0 to |entries|
          invariant created == NodesFor(done + LocaleRecords(langcode, entries[..j]), helpers)
        {
          assert entries[..j + 1][..j] == entries[..j];
          var source := entries[j].0;
          var node := ProcessTranslation(langcode, source, entries[j].1);
          node := node.(id := Some(helpers.createNodeId(IdSeed(langcode, source))));
          node := node.(internal := node.internal.(contentDigest := Some(helpers.createContentDigest(node.internal.content))));
          ghost var r := TranslationRecord(source, entries[j].1, langcode);
          NodesForSnoc(done + LocaleRecords(langcode, entries[..j]), r, helpers);
          assert done + LocaleRecords(langcode, entries[..j + 1]) == done + LocaleRecords(langcode, entries[..j]) + [r];
          created := created + [node];
        }
        assert entries[..|entries|] == entries;
      }
      assert languages[..|languages|] == languages;
    }
  }

  // ---------------------------------------------------------------------------
  // Node ids

  /** Two id seeds are equal exactly when the concatenations of langcode and source are. */
  lemma IdSeedEqualIff(l1: string, s1: string, l2: string, s2: string)
    ensures IdSeed(l1, s1) == IdSeed(l2, s2) <==> l1 + s1 == l2 + s2
  {
    assert IdSeed(l1, s1) == IdPrefix + (l1 + s1);
    assert IdSeed(l2, s2) == IdPrefix + (l2 + s2);
    if IdSeed(l1, s1) == IdSeed(l2, s2) {
      assert (IdPrefix + (l1 + s1))[|IdPrefix|..] == l1 + s1;
      assert (IdPrefix + (l2 + s2))[|IdPrefix|..] == l2 + s2;
    }
  }

  /** Within one language, distinct sources give distinct id seeds. */
  lemma IdSeedInjectiveInLocale(langcode: string, s1: string, s2: string)
    requires IdSeed(langcode, s1) == IdSeed(langcode, s2)
    ensures s1 == s2
  {
    IdSeedEqualIff(langcode, s1, langcode, s2);
    assert (langcode + s1)[|langcode|..] == s1;
    assert (langcode + s2)[|langcode|..] == s2;
  }

  /** Across languages the seeds can collide: ("en", "ab") and ("ena", "b") give the same one. */
  lemma IdSeedCollision()
    ensures IdSeed("en", "ab") == IdSeed("ena", "b")
  {
    IdSeedEqualIff("en", "ab", "ena", "b");
  }

  // ---------------------------------------------------------------------------
  // The flattening loop

  function PairCount(data: ResponseData): nat
    decreases |data|
  {
    if |data| == 0 then 0 else PairCount(data[..|data| - 1]) + |data[|data| - 1].1|
  }

  /** The records of one language are its pairs, one record per pair, in order. */
  lemma {:induction false} LocaleRecordsAt(langcode: string, entries: seq<(string, string)>)
    ensures |LocaleRecords(langcode, entries)| == |entries|
    ensures forall j :: 0 <= j < |entries| ==>
      LocaleRecords(langcode, entries)[j] == TranslationRecord(entries[j].0, entries[j].1, langcode)
  {
    if |entries| > 0 {
      var n := |entries| - 1;
      var init := entries[..n];
      LocaleRecordsAt(langcode, init);
      forall j | 0 <= j < n ensures LocaleRecords(langcode, entries)[j] == TranslationRecord(entries[j].0, entries[j].1, langcode) {
        assert init[j] == entries[j];
      }
    }
  }

  /** The loop creates exactly as many nodes as the response has pairs. */
  lemma {:induction false} FlattenLength(data: ResponseData)
    ensures |Flatten(data)| == PairCount(data)
  {
    if |data| > 0 {
      FlattenLength(data[..|data| - 1]);
      LocaleRecordsAt(data[|data| - 1].0, data[|data| - 1].1);
    }
  }

  /** Every pair of the response gets its record. */
  lemma {:induction false} FlattenComplete(data: ResponseData, i: int, j: int)
    requires 0 <= i < |data| && 0 <= j < |data[i].1|
    ensures TranslationRecord(data[i].1[j].0, data[i].1[j].1, data[i].0) in Flatten(data)
  {
    var init := data[..|data| - 1];
    if i == |data| - 1 {
      LocaleRecordsAt(data[i].0, data[i].1);
      assert LocaleRecords(data[i].0, data[i].1)[j] in LocaleRecords(data[i].0, data[i].1);
    } else {
      assert init[i] == data[i];
      FlattenComplete(init, i, j);
    }
  }

  /** Every record comes from some pair of the response. */
  lemma {:induction false} FlattenSound(data: ResponseData, k: int)
    requires 0 <= k < |Flatten(data)|
    ensures exists i, j ::
      && 0 <= i < |data| && 0 <= j < |data[i].1|
      && Flatten(data)[k] == TranslationRecord(data[i].1[j].0, data[i].1[j].1, data[i].0)
  {
    var init := data[..|data| - 1];
    var last := data[|data| - 1];
    var prefix := Flatten(init);
    if k < |prefix| {
      FlattenSound(init, k);
      var i, j :| 0 <= i < |init| && 0 <= j < |init[i].1| &&
        prefix[k] == TranslationRecord(init[i].1[j].0, init[i].1[j].1, init[i].0);
      assert init[i] == data[i];
    } else {
      LocaleRecordsAt(last.0, last.1);
      assert Flatten(data)[k] == LocaleRecords(last.0, last.1)[k - |prefix|];
    }
  }

  /** Every record has the langcode of some language of the response. */
  lemma FlattenLangcode(data: ResponseData, k: int)
    requires 0 <= k < |Flatten(data)|
    ensures exists i :: 0 <= i < |data| && Flatten(data)[k].langcode == data[i].0
  {
    FlattenSound(data, k);
  }

  /** In a well-formed response no two records share a langcode and a source. */
  lemma {:induction false} FlattenDistinct(data: ResponseData)
    requires WellFormed(data)
    ensures forall k1, k2 :: 0 <= k1 < k2 < |Flatten(data)| ==>
      Flatten(data)[k1].langcode != Flatten(data)[k2].langcode ||
      Flatten(data)[k1].source != Flatten(data)[k2].source
  {
    if |data| > 0 {
      var init := data[..|data| - 1];
      var last := data[|data| - 1];
      assert WellFormed(init) by {
        forall i | 0 <= i < |init| ensures UniqueKeys(init[i].1) {
          assert init[i] == data[i];
        }
      }
      FlattenDistinct(init);
      var prefix := Flatten(init);
      var tail := LocaleRecords(last.0, last.1);
      var all := Flatten(data);
      LocaleRecordsAt(last.0, last.1);
      forall k1, k2 | 0 <= k1 < k2 < |all|
        ensures all[k1].langcode != all[k2].langcode || all[k1].source != all[k2].source
      {
        if k2 < |prefix| {
          assert all[k1] == prefix[k1] && all[k2] == prefix[k2];
        } else if k1 >= |prefix| {
          assert all[k1] == tail[k1 - |prefix|] && all[k2] == tail[k2 - |prefix|];
          assert UniqueKeys(data[|data| - 1].1);
        } else {
          assert all[k1] == prefix[k1] && all[k2] == tail[k2 - |prefix|];
          FlattenLangcode(init, k1);
          var i :| 0 <= i < |init| && prefix[k1].langcode == init[i].0;
          assert init[i] == data[i];
        }
      }
    }
  }

  // ---------------------------------------------------------------------------
  // From the response to the i18next table

  /** What the translation query returns for the created nodes: their three fields. */
  function QueriedRecords(nodes: seq<TranslationNode>): seq<TranslationRecord>
  {
    seq(|nodes|, k requires 0 <= k < |nodes| => TranslationRecord(nodes[k].source, nodes[k].translation, nodes[k].langcode))
  }

  /** Querying the created nodes gives back the records they were made from. */
  lemma QueryCreated(recs: seq<TranslationRecord>, helpers: NodeHelpers)
    ensures QueriedRecords(NodesFor(recs, helpers)) == recs
  {
  }

  /** The (source, translation) pairs of one language as a map. */
  function AsMap(entries: seq<(string, string)>): map<string, string>
    decreases |entries|
  {
    if |entries| == 0 then map[]
    else
      var last := entries[|entries| - 1];
      AsMap(entries[..|entries| - 1])[last.0 := last.1]
  }

  /** With distinct keys, the map holds exactly the pairs. */
  lemma {:induction false} AsMapSpec(entries: seq<(string, string)>)
    requires UniqueKeys(entries)
    ensures AsMap(entries).Keys == KeysOf(entries)
    ensures forall j :: 0 <= j < |entries| ==> AsMap(entries)[entries[j].0] == entries[j].1
  {
    if |entries| > 0 {
      var init := entries[..|entries| - 1];
      AsMapSpec(init);
      var n := |entries| - 1;
      assert KeysOf(entries) == KeysOf(init) + {entries[n].0} by {
        forall x | x in KeysOf(entries) ensures x in KeysOf(init) + {entries[n].0} {
          var j :| 0 <= j < |entries| && entries[j].0 == x;
          if j < n { assert init[j] == entries[j]; }
        }
      }
      forall j | 0 <= j < |entries| ensures AsMap(entries)[entries[j].0] == entries[j].1 {
        if j < n {
          assert init[j] == entries[j];
        }
      }
    }
  }

  /** The sources that the flattened records give a language are the keys of its object. */
  lemma FlattenSources(data: ResponseData, i: int)
    requires WellFormed(data) && 0 <= i < |data|
    ensures Helpers.SourcesOf(Flatten(data), data[i].0) == KeysOf(data[i].1)
  {
    var recs := Flatten(data);
    var l := data[i].0;
    forall s | s in Helpers.SourcesOf(recs, l) ensures s in KeysOf(data[i].1) {
      var k :| 0 <= k < |recs| && recs[k].langcode == l && recs[k].source == s;
      FlattenSound(data, k);
      var i', j :| 0 <= i' < |data| && 0 <= j < |data[i'].1| &&
        recs[k] == TranslationRecord(data[i'].1[j].0, data[i'].1[j].1, data[i'].0);
      assert i' == i;
    }
    forall s | s in KeysOf(data[i].1) ensures s in Helpers.SourcesOf(recs, l) {
      var j :| 0 <= j < |data[i].1| && data[i].1[j].0 == s;
      FlattenComplete(data, i, j);
    }
  }

  /** Each key of a language's object holds that object's value in the reshaped table. */
  lemma ReshapedFlattenEntry(locales: seq<string>, data: ResponseData, i: int, s: string)
    requires WellFormed(data)
    requires Helpers.Reshaped(locales, Flatten(data)).Success?
    requires 0 <= i < |data| && s in KeysOf(data[i].1)
    ensures data[i].0 in Helpers.Reshaped(locales, Flatten(data)).value
    ensures var entry := Helpers.Reshaped(locales, Flatten(data)).value[data[i].0].translation;
      s in entry && s in AsMap(data[i].1) && entry[s] == AsMap(data[i].1)[s]
  {
    var recs := Flatten(data);
    var e := data[i].1;
    var j :| 0 <= j < |e| && e[j].0 == s;
    AsMapSpec(e);
    FlattenComplete(data, i, j);
    var k :| 0 <= k < |recs| && recs[k] == TranslationRecord(e[j].0, e[j].1, data[i].0);
    FlattenDistinct(data);
    assert Helpers.IsLastWrite(recs, k);
    Helpers.ReshapedLastWrite(locales, recs, k);
  }

  /**
   * Building the table from the records of a well-formed response whose
   * languages are all configured gives, for each language of the response,
   * exactly that language's pairs.
   */
  lemma ReshapedFlatten(locales: seq<string>, data: ResponseData, i: int)
    requires WellFormed(data)
    requires forall i' :: 0 <= i' < |data| ==> data[i'].0 in locales
    requires 0 <= i < |data|
    ensures Helpers.Reshaped(locales, Flatten(data)).Success?
    ensures data[i].0 in Helpers.Reshaped(locales, Flatten(data)).value
    ensures Helpers.Reshaped(locales, Flatten(data)).value[data[i].0].translation == AsMap(data[i].1)
  {
    var recs := Flatten(data);
    forall k | 0 <= k < |recs| ensures recs[k].langcode in locales {
      FlattenLangcode(data, k);
    }
    Helpers.ReshapedFailsIff(locales, recs);
    Helpers.ReshapedSources(locales, recs, data[i].0);
    FlattenSources(data, i);
    AsMapSpec(data[i].1);
    var entry := Helpers.Reshaped(locales, recs).value[data[i].0].translation;
    forall s | s in entry ensures entry[s] == AsMap(data[i].1)[s] {
      ReshapedFlattenEntry(locales, data, i, s);
    }
  }

  /**
   * No two records give the same id seed. Gatsby's node store is keyed by
   * node id, so only then does every created node survive in the store, as
   * the append-only output of `SourceNodes` assumes.
   */
  predicate DistinctIdSeeds(recs: seq<TranslationRecord>)
  {
    forall k1, k2 :: 0 <= k1 < k2 < |recs| ==>
      IdSeed(recs[k1].langcode, recs[k1].source) != IdSeed(recs[k2].langcode, recs[k2].source)
  }

  /**
   * A well-formed response whose two pairs give their nodes the same id:
   * in the node store the second node would replace the first.
   */
  lemma CollidingResponse(helpers: NodeHelpers)
    ensures var data: ResponseData := [("en", [("ab", "X")]), ("ena", [("b", "Y")])];
      && WellFormed(data)
      && !DistinctIdSeeds(Flatten(data))
      && |NodesFor(Flatten(data), helpers)| == 2
      && NodesFor(Flatten(data), helpers)[0].id == NodesFor(Flatten(data), helpers)[1].id
  {
    var data: ResponseData := [("en", [("ab", "X")]), ("ena", [("b", "Y")])];
    var recs := [TranslationRecord("ab", "X", "en"), TranslationRecord("b", "Y", "ena")];
    assert data[..1] == [("en", [("ab", "X")])] && data[..1][..0] == [];
    assert [("ab", "X")][..0] == [] && [("b", "Y")][..0] == [];
    assert Flatten(data[..1]) == [recs[0]];
    assert Flatten(data) == recs;
    IdSeedCollision();
    assert IdSeed(recs[0].langcode, recs[0].source) == IdSeed(recs[1].langcode, recs[1].source);
  }

  /**
   * End to end: the nodes created from a well-formed response whose
   * languages are all configured and whose pairs give distinct id seeds,
   * queried back and reshaped, give for each language of the response
   * exactly that language's pairs. Without distinct seeds the node store
   * keeps only one node per id (see `CollidingResponse`), and the result
   * does not hold.
   */
  lemma EndToEnd(locales: seq<string>, data: ResponseData, helpers: NodeHelpers, i: int)
    requires WellFormed(data)
    requires forall i' :: 0 <= i' < |data| ==> data[i'].0 in locales
    requires 0 <= i < |data|
    requires DistinctIdSeeds(Flatten(data))
    ensures Helpers.Reshaped(locales, QueriedRecords(NodesFor(Flatten(data), helpers))).Success?
    ensures data[i].0 in Helpers.Reshaped(locales, QueriedRecords(NodesFor(Flatten(data), helpers))).value
    ensures Helpers.Reshaped(locales, QueriedRecords(NodesFor(Flatten(data), helpers))).value[data[i].0].translation
         == AsMap(data[i].1)
  {
    QueryCreated(Flatten(data), helpers);
    ReshapedFlatten(locales, data, i);
  }
}
