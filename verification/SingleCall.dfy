/** A transaction of one call against the same call executed alone: where they agree, and when not. */
module SingleCall {
  import opened Bytes
  import opened PropertyGraph
  import opened RedoLog
  import opened Matching
  import opened Execution
  import opened Transaction
  import BsonFormat
  import BsonReader
  import BsonWriter
  import BsonMerge
  import Utf8

  lemma FrameOfOneCall(g: Graph, c: Call)
    requires InDomain(g) && BoundCall(c)
    ensures Frame(g, [c]) == CallOperations(g, c, g.nextNode, g.nextEdge)
  {
    hide CallOperations;
    var nodes, edges := NodeBaseAfter(c, g.nextNode), EdgeBaseAfter(c, g.nextEdge);
    assert [c][1..] == [] && FrameFrom(g, [], nodes, edges) == [];
    assert CallOperations(g, c, g.nextNode, g.nextEdge) + [] == CallOperations(g, c, g.nextNode, g.nextEdge);
  }

  /** One INSERT: commit leaves the store, and fails, exactly as the plain insert does. */
  lemma InsertAgrees(g: Graph, c: Call)
    requires InDomain(g) && c.Insert? && g.nextNode < UINT64_MAX && g.nextEdge < UINT64_MAX
    ensures var doc := BsonReader.DocumentBytes(c.payload);
            ApplyAll(g, Frame(g, [c])) ==
            Attempt(g, if c.kind == NODE then InsertNode(g, doc) else InsertEdge(g, c.source, c.destination, doc))
  {
    hide BsonReader.DocumentBytes, Storable;
    var ops := Frame(g, [c]);
    FrameOfOneCall(g, c);
    assert ops == [InsertOperation(c, if c.kind == NODE then g.nextNode else g.nextEdge)];
    assert ApplyFirst(g, ops, 0) == Applied(g, None);
    assert ApplyFirst(g, ops, 1) == ApplyOperation(g, ops[0]);
  }

  lemma FrameOfOne(g: Graph, c: Call)
    requires InDomain(g) && !c.Insert? && BoundCall(c)
    ensures AllLive(g, c.pattern.kind, Resolved(g, c.pattern, c.direction))
    ensures forall i :: 0 <= i < |Resolved(g, c.pattern, c.direction)| ==>
              Resolved(g, c.pattern, c.direction)[i] <= UINT64_MAX
    ensures Frame(g, [c]) == MatchOperations(c, Resolved(g, c.pattern, c.direction))
  {
    hide Resolved;
    ResolvedIsLive(g, c.pattern, c.direction);
    FrameOfOneCall(g, c);
  }

  /** Deleting an object takes away that object of its kind, and no other. */
  lemma DeletionRemovesOne(g: Graph, c: Call, id: u64)
    requires c.Delete?
    ensures id in Objects(g, c.pattern.kind) ==>
              ApplyOperation(g, MatchOperation(c, id)) == Attempt(g, MutateOne(g, c, id))
    ensures id !in Objects(g, c.pattern.kind) ==> ApplyOperation(g, MatchOperation(c, id)) == Applied(g, None)
    ensures MutateOne(g, c, id).Some? ==>
              forall x :: x in Objects(MutateOne(g, c, id).value, c.pattern.kind) <==>
                  x in Objects(g, c.pattern.kind) && x != id
  {
  }

  lemma {:induction false} DeletesAgree(g: Graph, c: Call, ids: seq<nat>, n: nat)
    requires c.Delete? && n <= |ids| && AllLive(g, c.pattern.kind, ids)
    requires forall i :: 0 <= i < |ids| ==> ids[i] <= UINT64_MAX
    ensures ApplyFirst(g, MatchOperations(c, ids), n) == MutateFirst(g, c, ids, n)
    ensures MutateFirst(g, c, ids, n).Ok() ==>
              forall id :: id in Objects(MutateFirst(g, c, ids, n).graph, c.pattern.kind) <==>
                           id in Objects(g, c.pattern.kind) && id !in ids[..n]
  {
    hide ApplyOperation, MutateOne, Objects, MatchOperation;
    if n > 0 {
      DeletesAgree(g, c, ids, n - 1);
      var r := MutateFirst(g, c, ids, n - 1);
      DeletionRemovesOne(r.graph, c, ids[n - 1]);
      assert ids[..n] == ids[..n - 1] + [ids[n - 1]];
      assert Repeated(ids, n - 1) <==> ids[n - 1] in ids[..n - 1];
      assert ids[n - 1] in Objects(g, c.pattern.kind);
    }
  }

  /**
   * One DELETE: commit leaves the store, and fails, exactly as autocommit does, although only
   * autocommit takes repeated matches out.
   */
  lemma DeleteAgrees(g: Graph, c: Call)
    requires InDomain(g) && c.Delete? && BoundCall(c)
    ensures ApplyAll(g, Frame(g, [c])) == MutateAll(g, c, Resolved(g, c.pattern, c.direction))
  {
    hide Resolved, ApplyFirst, MutateFirst, MatchOperations, GraphOk;
    var ids := Resolved(g, c.pattern, c.direction);
    FrameOfOne(g, c);
    DeletesAgree(g, c, ids, |ids|);
  }

  /** The graph with the documents of some objects of a kind replaced. */
  function WithDocuments(g: Graph, kind: Kind, docs: map<nat, seq<byte>>): Graph {
    if kind == NODE then g.(nodes := map id | id in g.nodes :: if id in docs then docs[id] else g.nodes[id])
    else g.(edges := map id | id in g.edges :: if id in docs then g.edges[id].(doc := docs[id]) else g.edges[id])
  }

  /** The update of one object, in a graph where some objects are already updated. */
  function UpdateOne(g: Graph, kind: Kind, id: nat, doc: seq<byte>): Option<Graph> {
    if kind == NODE then UpdateNode(g, id, doc) else UpdateEdge(g, id, doc)
  }

  lemma WithOneMore(g: Graph, kind: Kind, docs: map<nat, seq<byte>>, id: nat, doc: seq<byte>)
    requires id in Objects(g, kind)
    ensures id in Objects(WithDocuments(g, kind, docs), kind)
    ensures Objects(WithDocuments(g, kind, docs), kind)[id] == if id in docs then docs[id] else Objects(g, kind)[id]
    ensures UpdateOne(WithDocuments(g, kind, docs), kind, id, doc) ==
            if Storable(doc) then Some(WithDocuments(g, kind, docs[id := doc])) else None
  {
    hide Storable;
    var was, now := WithDocuments(g, kind, docs), WithDocuments(g, kind, docs[id := doc]);
    assert kind == NODE ==> was.nodes[id := doc] == now.nodes;
    assert kind == EDGE ==> was.edges[id := was.edges[id].(doc := doc)] == now.edges;
  }

  lemma WithNone(g: Graph, kind: Kind)
    ensures WithDocuments(g, kind, map[]) == g
  {
    assert kind == NODE ==> WithDocuments(g, kind, map[]).nodes == g.nodes;
    assert kind == EDGE ==> WithDocuments(g, kind, map[]).edges == g.edges;
  }

  /** Two choices of documents for the same live objects give the same graph only if they are the same. */
  lemma WithDocumentsInjective(g: Graph, kind: Kind, docs: map<nat, seq<byte>>, docs': map<nat, seq<byte>>)
    requires docs.Keys == docs'.Keys <= Objects(g, kind).Keys
    ensures WithDocuments(g, kind, docs) == WithDocuments(g, kind, docs') <==> docs == docs'
  {
    if WithDocuments(g, kind, docs) == WithDocuments(g, kind, docs') {
      forall id | id in docs ensures docs[id] == docs'[id] {
        assert Objects(WithDocuments(g, kind, docs), kind)[id] == docs[id];
        assert Objects(WithDocuments(g, kind, docs'), kind)[id] == docs'[id];
      }
    }
  }

  /** What the transaction stores: the payload itself, at every match. */
  function Replacements(payload: seq<byte>, ids: seq<nat>): map<nat, seq<byte>> {
    map id | id in ids :: BsonReader.DocumentBytes(payload)
  }

  lemma {:induction false} ReplaceFirst(g: Graph, c: Call, ids: seq<nat>, n: nat)
    requires c.Update? && n <= |ids| && AllLive(g, c.pattern.kind, ids)
    requires forall i :: 0 <= i < |ids| ==> ids[i] <= UINT64_MAX
    requires ApplyFirst(g, MatchOperations(c, ids), n).Ok()
    ensures ApplyFirst(g, MatchOperations(c, ids), n).graph ==
              WithDocuments(g, c.pattern.kind, Replacements(c.payload, ids[..n]))
    ensures n > 0 ==> Storable(BsonReader.DocumentBytes(c.payload))
  {
    hide ApplyOperation, Objects, WithDocuments, Storable, BsonReader.DocumentBytes;
    var kind := c.pattern.kind;
    if n == 0 {
      WithNone(g, kind);
      assert Replacements(c.payload, ids[..0]) == map[];
    } else {
      ReplaceFirst(g, c, ids, n - 1);
      var id, doc, docs := ids[n - 1], BsonReader.DocumentBytes(c.payload), Replacements(c.payload, ids[..n - 1]);
      assert id in Objects(g, kind);
      WithOneMore(g, kind, docs, id, doc);
      ReplaceOne(WithDocuments(g, kind, docs), c, id);
      assert ids[..n] == ids[..n - 1] + [id];
      assert Replacements(c.payload, ids[..n]) == docs[id := doc];
    }
  }

  lemma ReplaceOne(g: Graph, c: Call, id: u64)
    requires c.Update? && id in Objects(g, c.pattern.kind)
    ensures ApplyOperation(g, MatchOperation(c, id)) ==
            Attempt(g, UpdateOne(g, c.pattern.kind, id, BsonReader.DocumentBytes(c.payload)))
  {
    hide Storable, BsonReader.DocumentBytes;
  }

  function MergedOrNone(doc: seq<byte>, payload: seq<byte>): seq<byte> {
    match MergedDocument(doc, payload) case Some(merged) => merged case None => []
  }

  /** What autocommit stores: the merge of the original document and the payload, at every match. */
  function Merges(g: Graph, kind: Kind, payload: seq<byte>, ids: seq<nat>): map<nat, seq<byte>> {
    map id | id in ids && id in Objects(g, kind) :: MergedOrNone(Objects(g, kind)[id], payload)
  }

  lemma {:induction false} MergeFirst(g: Graph, c: Call, ids: seq<nat>, n: nat)
    requires c.Update? && n <= |ids| && AllLive(g, c.pattern.kind, ids)
    requires MutateFirst(g, c, ids, n).Ok()
    ensures MutateFirst(g, c, ids, n).graph ==
              WithDocuments(g, c.pattern.kind, Merges(g, c.pattern.kind, c.payload, ids[..n]))
    ensures forall i :: 0 <= i < n ==> MergedDocument(Objects(g, c.pattern.kind)[ids[i]], c.payload).Some?
  {
    hide MutateOne, Objects, WithDocuments, Storable, MergedDocument;
    var kind := c.pattern.kind;
    if n == 0 {
      WithNone(g, kind);
      assert Merges(g, kind, c.payload, ids[..0]) == map[];
    } else {
      MergeFirst(g, c, ids, n - 1);
      var id, docs := ids[n - 1], Merges(g, kind, c.payload, ids[..n - 1]);
      assert ids[..n] == ids[..n - 1] + [id];
      assert Repeated(ids, n - 1) <==> id in ids[..n - 1];
      assert id in Objects(g, kind);
      if Repeated(ids, n - 1) {
        assert Merges(g, kind, c.payload, ids[..n]) == docs;
      } else {
        WithOneMore(g, kind, docs, id, []);
        MergeOne(WithDocuments(g, kind, docs), c, id);
        WithOneMore(g, kind, docs, id, MergedOrNone(Objects(g, kind)[id], c.payload));
        assert Merges(g, kind, c.payload, ids[..n]) == docs[id := MergedOrNone(Objects(g, kind)[id], c.payload)];
      }
    }
  }

  lemma MergeOne(g: Graph, c: Call, id: nat)
    requires c.Update? && id in Objects(g, c.pattern.kind)
    ensures MutateOne(g, c, id) ==
            match MergedDocument(Objects(g, c.pattern.kind)[id], c.payload)
            case None => None
            case Some(doc) => UpdateOne(g, c.pattern.kind, id, doc)
  {
    hide Storable, MergedDocument;
  }

  /** The merge is the payload exactly when the payload has every key of the original. */
  lemma MergeIsPayloadIff(doc: seq<byte>, payload: seq<byte>)
    requires BsonFormat.ValidDocument(doc) && BsonFormat.ValidDocument(BsonReader.DocumentBytes(payload))
    requires MergedDocument(doc, payload).Some?
    ensures MergedDocument(doc, payload).value == BsonReader.DocumentBytes(payload) <==>
            BsonMerge.Covers(BsonWriter.HandleElements(payload), BsonFormat.DocumentElements(doc))
  {
    hide BsonFormat.ValidDocument, BsonFormat.DocumentElements, BsonMerge.Writable, BsonMerge.MergedElements;
    hide BsonMerge.Covers;
    NotEmptyHandle(doc);
    var merged, bytes := MergedDocument(doc, payload).value, BsonReader.DocumentBytes(payload);
    BsonMerge.MergeKeepsValid(doc, payload);
    BsonMerge.ReplacementIsMergeIff(BsonFormat.DocumentElements(doc), BsonWriter.HandleElements(payload));
    if BsonFormat.DocumentElements(merged) == BsonFormat.DocumentElements(bytes) {
      BsonFormat.ElementsDetermineDocument(merged, bytes);
    }
  }

  lemma NotEmptyHandle(doc: seq<byte>)
    requires BsonFormat.ValidDocument(doc)
    ensures doc != [] && BsonReader.DocumentBytes(doc) == doc
  {
    hide BsonFormat.ValidRange;
  }
  /**
   * One UPDATE, on the other hand: a transaction stores the payload where autocommit stores the
   * merge. Both having succeeded, the stores are the same exactly when the payload has every key
   * of every object it was set on.
   */
  lemma UpdateAgreesIff(g: Graph, c: Call)
    requires InDomain(g) && c.Update? && BoundCall(c) && StoredValid(g, c.pattern.kind)
    requires ApplyAll(g, Frame(g, [c])).Ok() && MutateAll(g, c, Resolved(g, c.pattern, c.direction)).Ok()
    ensures AllLive(g, c.pattern.kind, Resolved(g, c.pattern, c.direction))
    ensures ApplyAll(g, Frame(g, [c])).graph == MutateAll(g, c, Resolved(g, c.pattern, c.direction)).graph <==>
            forall i :: 0 <= i < |Resolved(g, c.pattern, c.direction)| ==>
              BsonMerge.Covers(BsonWriter.HandleElements(c.payload),
                BsonFormat.DocumentElements(Objects(g, c.pattern.kind)[Resolved(g, c.pattern, c.direction)[i]]))
  {
    hide Resolved, ApplyFirst, MutateFirst, MatchOperations, GraphOk, BsonFormat.ValidDocument;
    hide MergedDocument, WithDocuments;
    hide BsonMerge.Covers, BsonFormat.DocumentElements, BsonReader.DocumentBytes, BsonWriter.HandleElements;
    hide Frame, InDomain;
    var kind, ids := c.pattern.kind, Resolved(g, c.pattern, c.direction);
    FrameOfOne(g, c);
    assert ids[..|ids|] == ids;
    ReplaceFirst(g, c, ids, |ids|);
    MergeFirst(g, c, ids, |ids|);
    var docs, docs' := Replacements(c.payload, ids), Merges(g, kind, c.payload, ids);
    WithDocumentsInjective(g, kind, docs, docs');
    forall i | 0 <= i < |ids|
      ensures docs'[ids[i]] == docs[ids[i]] <==>
              BsonMerge.Covers(BsonWriter.HandleElements(c.payload),
                BsonFormat.DocumentElements(Objects(g, kind)[ids[i]]))
    {
      MergeIsPayloadIff(Objects(g, kind)[ids[i]], c.payload);
    }
  }

  lemma NullElement(key: seq<byte>) returns (e: BsonFormat.Element)
    requires key == [97]
    ensures e == BsonFormat.Element(BsonFormat.NULL, key, [])
    ensures BsonFormat.Readable(e) && BsonFormat.ValidElement(e, 0, false, 0)
    ensures |BsonFormat.EncodeElement(e)| == 3
  {
    e := BsonFormat.Element(BsonFormat.NULL, key, []);
    assert BsonFormat.FindZero(key) == 1;
    assert Utf8.Accepts(key);
  }

  /** The valid document with the one property `a`, which is null. */
  lemma OneProperty() returns (doc: seq<byte>)
    ensures BsonFormat.ValidDocument(doc) && |doc| == 8
    ensures BsonFormat.DocumentElements(doc) == [BsonFormat.Element(BsonFormat.NULL, [97], [])]
  {
    hide BsonFormat.Readable, BsonFormat.ValidElement, BsonFormat.ValidRange, BsonFormat.Elements;
    hide BsonFormat.EncodeElement;
    hide Utf8.Accepts, LoadU32, StoreU32;
    var e := NullElement([97]);
    BsonFormat.EncodeElementsSnoc([], e);
    assert [] + [e] == [e];
    doc := BsonFormat.EncodeDocument([e]);
    BsonFormat.EncodedDocumentParts([e]);
    BsonFormat.EncodingIsValidRange([e], 0, false);
  }

  lemma MatchesEverything(objects: map<nat, seq<byte>>, f: Filter)
    requires 0 in objects && f == Filter(None, None, [])
    ensures Scan(objects, f, 0, 1) == [0]
  {
    assert BsonFormat.DocumentElements(BsonReader.DocumentBytes([])) == [];
    assert Passes(f, 0, objects[0]);
    assert Scan(objects, f, 1, 1) == [];
  }

  /** Merging with nothing is always possible and changes nothing. */
  lemma MergeWithNothing(doc: seq<byte>, e: BsonFormat.Element)
    requires BsonFormat.ValidDocument(doc) && BsonFormat.DocumentElements(doc) == [e] && |doc| <= 8
    ensures MergedDocument(doc, []).Some? && BsonFormat.ValidDocument(MergedDocument(doc, []).value)
    ensures |MergedDocument(doc, []).value| <= 8
  {
    hide BsonFormat.ValidRange;
    NotEmptyHandle(doc);
    BsonFormat.ValidDocumentDetermined(doc);
    BsonMerge.KeptAll([e]);
    assert BsonMerge.MergedElements([e], []) == [e];
    assert BsonFormat.ValidElement(e, 0, false, 0) by { assert BsonFormat.ValidElement([e][0], 0, false, 0 + 0); }
    assert BsonMerge.Writable([e]);
    BsonMerge.MergeKeepsValid(doc, []);
  }

  lemma EmptyUpdateSucceeds(g: Graph, c: Call, doc: seq<byte>)
    requires g == Graph(map[0 := doc], map[], 1, 0) && BsonFormat.ValidDocument(doc) && |doc| <= 8
    requires c.Update? && c.payload == [] && c.pattern.kind == NODE && |BsonFormat.DocumentElements(doc)| == 1
    ensures ApplyAll(g, MatchOperations(c, [0])).Ok() && MutateAll(g, c, [0]).Ok()
  {
    hide BsonFormat.ValidDocument, BsonFormat.DocumentElements, MergedDocument;
    var ops := MatchOperations(c, [0]);
    assert ApplyFirst(g, ops, 0) == Applied(g, None);
    assert ops[0] == MatchOperation(c, 0);
    MergeWithNothing(doc, BsonFormat.DocumentElements(doc)[0]);
    assert MutateFirst(g, c, [0], 0) == Applied(g, None);
    assert !Repeated([0], 0);
  }

  /** They do differ: setting nothing on an object with a property erases it in a transaction only. */
  lemma UpdateCanDiffer() returns (g: Graph, c: Call)
    ensures InDomain(g) && c.Update? && BoundCall(c) && StoredValid(g, c.pattern.kind)
    ensures ApplyAll(g, Frame(g, [c])).Ok() && MutateAll(g, c, Resolved(g, c.pattern, c.direction)).Ok()
    ensures ApplyAll(g, Frame(g, [c])).graph != MutateAll(g, c, Resolved(g, c.pattern, c.direction)).graph
  {
    hide BsonFormat.ValidDocument, BsonFormat.DocumentElements, MutateFirst, ApplyFirst, Scan;
    var doc := OneProperty();
    var any := Filter(None, None, []);
    g := Graph(map[0 := doc], map[], 1, 0);
    c := Update(Pattern(false, any, any, any, NODE, SOURCE), RIGHT, []);
    MatchesEverything(g.nodes, any);
    assert Resolved(g, c.pattern, RIGHT) == [0];
    EmptyUpdateSucceeds(g, c, doc);
    FrameOfOne(g, c);
    UpdateAgreesIff(g, c);
    var es := BsonFormat.DocumentElements(doc);
    assert !BsonMerge.HasKey([], es[0].key);
    assert !BsonMerge.Covers(BsonWriter.HandleElements([]), es);
    assert Objects(g, NODE)[Resolved(g, c.pattern, RIGHT)[0]] == doc;
  }
}
