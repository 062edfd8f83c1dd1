/** Calls executed one at a time, without a transaction: the mutations of matched objects. */
module Execution {
  import opened Bytes
  import opened PropertyGraph
  import opened RedoLog
  import opened Matching
  import opened GraphStore
  import opened PagedObjectFile
  import BsonFormat
  import BsonReader
  import BsonWriter
  import BsonMerge

  datatype Call =
    | Insert(kind: Kind, source: u64, destination: u64, payload: seq<byte>)
    | Update(pattern: Pattern, direction: Direction, payload: seq<byte>)
    | Delete(pattern: Pattern, direction: Direction, detach: bool)

  /** What the binder guarantees of a call. */
  predicate BoundCall(c: Call) { c.Insert? || Bound(c.pattern) }

  /** A graph whose ids fit the store's id type. */
  ghost predicate InDomain(g: Graph) {
    GraphOk(g) && g.nextNode <= UINT64_MAX && g.nextEdge <= UINT64_MAX
  }

  /** Every id is a live object of the kind. */
  ghost predicate AllLive(g: Graph, kind: Kind, ids: seq<nat>) {
    forall i :: 0 <= i < |ids| ==> ids[i] in Objects(g, kind)
  }

  lemma LiveInDomain(g: Graph, kind: Kind, ids: seq<nat>)
    requires InDomain(g) && AllLive(g, kind, ids)
    ensures forall i :: 0 <= i < |ids| ==> ids[i] <= UINT64_MAX
  {
  }

  ghost predicate StoredValid(g: Graph, kind: Kind) {
    forall id :: id in Objects(g, kind) ==> BsonFormat.ValidDocument(Objects(g, kind)[id])
  }

  /** The graph of a store is one that the lemmas here are about. */
  lemma StoreGraph(store: Store)
    requires store.Valid()
    ensures InDomain(store.Graph()) && StoredValid(store.Graph(), NODE) && StoredValid(store.Graph(), EDGE)
  {
    hide ObjectFile.Valid, ObjectFile.Contents, BsonFormat.ValidDocument, GraphOk;
    store.GraphInOrder();
    store.DocumentsValid();
  }

  // ----- One match -----

  /** The document of an updated object: the merge of the stored one and the payload. */
  function MergedDocument(doc: seq<byte>, payload: seq<byte>): Option<seq<byte>> {
    if BsonMerge.Writable(BsonMerge.MergedElements(BsonWriter.HandleElements(doc), BsonWriter.HandleElements(payload)))
    then Some(BsonMerge.Merged(doc, payload)) else None
  }

  /** One turn of execute_mutation. */
  function MutateOne(g: Graph, c: Call, id: nat): Option<Graph>
    requires !c.Insert?
  {
    if c.Delete? then
      if c.pattern.kind == NODE then DeleteNode(g, id, c.detach) else DeleteEdge(g, id)
    else if id !in Objects(g, c.pattern.kind) then None
    else
      match MergedDocument(Objects(g, c.pattern.kind)[id], c.payload)
      case None => None
      case Some(doc) => if c.pattern.kind == NODE then UpdateNode(g, id, doc) else UpdateEdge(g, id, doc)
  }

  /** already_processed */
  predicate Repeated(ids: seq<nat>, current: nat)
    requires current < |ids|
  {
    exists i :: 0 <= i < current && ids[i] == ids[current]
  }

  /** The first `n` matches mutated one by one, repeated ones skipped, stopping at a failure. */
  function MutateFirst(g: Graph, c: Call, ids: seq<nat>, n: nat): Applied
    requires !c.Insert? && n <= |ids|
  {
    if n == 0 then Applied(g, None)
    else
      var r := MutateFirst(g, c, ids, n - 1);
      if !r.Ok() || Repeated(ids, n - 1) then r else Attempt(r.graph, MutateOne(r.graph, c, ids[n - 1]))
  }

  function MutateAll(g: Graph, c: Call, ids: seq<nat>): Applied
    requires !c.Insert?
  {
    MutateFirst(g, c, ids, |ids|)
  }

  lemma {:induction false} MutationFailureSticks(g: Graph, c: Call, ids: seq<nat>, n: nat, m: nat)
    requires !c.Insert? && n <= m <= |ids| && !MutateFirst(g, c, ids, n).Ok()
    ensures MutateFirst(g, c, ids, m) == MutateFirst(g, c, ids, n)
    decreases m
  {
    hide MutateOne, Repeated, Objects;
    if n < m {
      MutationFailureSticks(g, c, ids, n, m - 1);
    }
  }

  /** How many of the first `n` matches were not seen before. */
  function Distinct(ids: seq<nat>, n: nat): nat
    requires n <= |ids|
  {
    if n == 0 then 0 else Distinct(ids, n - 1) + if Repeated(ids, n - 1) then 0 else 1
  }

  function Members(ids: seq<nat>): set<nat> { set id | id in ids }

  /** The affected count is the number of different objects matched. */
  lemma {:induction false} DistinctCounts(ids: seq<nat>, n: nat)
    requires n <= |ids|
    ensures Distinct(ids, n) == |Members(ids[..n])|
  {
    if n > 0 {
      DistinctCounts(ids, n - 1);
      var before := ids[..n - 1];
      assert ids[..n] == before + [ids[n - 1]];
      assert Members(ids[..n]) == Members(before) + {ids[n - 1]};
      assert Repeated(ids, n - 1) <==> ids[n - 1] in before;
    }
  }

  // ----- The methods -----

  method AlreadyProcessed(ids: seq<nat>, current: nat) returns (r: bool)
    requires current < |ids|
    ensures r <==> Repeated(ids, current)
  {
    for index := 0 to current
      invariant forall i :: 0 <= i < index ==> ids[i] != ids[current]
    {
      if ids[index] == ids[current] {
        return true;
      }
    }
    return false;
  }

  method MergeStored(doc: seq<byte>, payload: seq<byte>) returns (ok: bool, merged: seq<byte>)
    ensures ok <==> MergedDocument(doc, payload).Some?
    ensures ok ==> BsonReader.DocumentBytes(merged) == MergedDocument(doc, payload).value
  {
    hide BsonMerge.Writable, BsonMerge.MergedElements, BsonReader.DocumentBytes;
    var result;
    ok, result := BsonMerge.Merge(doc, payload);
    merged := if ok then result.data[..result.length] else [];
  }

  method UpdateObject(store: Store, c: Call, id: u64, ghost g: Graph) returns (ok: bool)
    requires store.Represents(g) && c.Update?
    modifies store, store.nodes, store.edges
    ensures store.Valid() && (store.Room() ==> old(store.Room()))
    ensures ok ==> MutateOne(g, c, id) == Some(store.Graph())
    ensures !ok ==> store.Graph() == g
    ensures old(store.Room()) && MutateOne(g, c, id).Some? ==> ok
  {
    hide Store.Valid, Store.Graph, Store.Room, PropertyGraph.UpdateNode, PropertyGraph.UpdateEdge;
    hide MergedDocument, BsonReader.DocumentBytes;
    var live, doc := ReadElement(store, c.pattern.kind, id, g);
    if !live {
      return false;
    }
    var merges, merged := MergeStored(doc, c.payload);
    if !merges {
      return false;
    }
    if c.pattern.kind == NODE {
      ok := store.UpdateNode(id, merged);
    } else {
      ok := store.UpdateEdge(id, merged);
    }
  }

  method DeleteObject(store: Store, c: Call, id: u64, ghost g: Graph) returns (ok: bool)
    requires store.Represents(g) && c.Delete?
    modifies store, store.nodes, store.edges
    ensures store.Valid() && (store.Room() ==> old(store.Room()))
    ensures ok == MutateOne(g, c, id).Some?
    ensures store.Graph() == if ok then MutateOne(g, c, id).value else g
  {
    hide Store.Valid, Store.Graph, Store.Room, PropertyGraph.DeleteNode, PropertyGraph.DeleteEdge;
    if c.pattern.kind == NODE {
      ok := store.DeleteNode(id, c.detach);
    } else {
      ok := store.DeleteEdge(id);
    }
  }

  method MutateObject(store: Store, c: Call, id: u64, ghost g: Graph) returns (ok: bool)
    requires store.Represents(g) && !c.Insert?
    modifies store, store.nodes, store.edges
    ensures store.Valid() && (store.Room() ==> old(store.Room()))
    ensures ok ==> MutateOne(g, c, id) == Some(store.Graph())
    ensures !ok ==> store.Graph() == g
    ensures old(store.Room()) && MutateOne(g, c, id).Some? ==> ok
  {
    hide Store.Valid, Store.Graph, Store.Room, MutateOne;
    if c.Delete? {
      ok := DeleteObject(store, c, id, g);
    } else {
      ok := UpdateObject(store, c, id, g);
    }
  }

  /**
   * execute_mutation: the matches are mutated one by one, each object once. As long as the files
   * have room it succeeds exactly when every mutation does; a failure leaves what the matches
   * before it have done.
   */
  method ExecuteMutation(store: Store, c: Call, ghost g: Graph) returns (ok: bool, affected: nat, ghost done: nat)
    requires store.Represents(g) && !c.Insert? && BoundCall(c)
    modifies store, store.nodes, store.edges
    ensures store.Valid() && (store.Room() ==> old(store.Room()))
    ensures var ids := Resolved(g, c.pattern, c.direction);
            && done <= |ids|
            && MutateFirst(g, c, ids, done) == Applied(store.Graph(), None)
            && (ok ==> done == |ids| && affected == Distinct(ids, |ids|))
            && (store.Room() ==> (ok <==> MutateAll(g, c, ids).Ok()))
  {
    hide Store.Valid, Store.Graph, Store.Room, MutateOne, Resolved, Repeated;
    StoreGraph(store);
    ResolvedIsLive(g, c.pattern, c.direction);
    var matches := ResolveMatch(store, c.pattern, c.direction);
    LiveInDomain(g, c.pattern.kind, matches);
    affected := 0;
    for index := 0 to |matches|
      invariant store.Valid() && MutateFirst(g, c, matches, index) == Applied(store.Graph(), None)
      invariant affected == Distinct(matches, index) && (store.Room() ==> old(store.Room()))
    {
      var processed := AlreadyProcessed(matches, index);
      if !processed {
        var mutated := MutateObject(store, c, matches[index], store.Graph());
        if !mutated {
          if !MutateFirst(g, c, matches, index + 1).Ok() {
            MutationFailureSticks(g, c, matches, index + 1, |matches|);
          }
          return false, affected, index;
        }
        affected := affected + 1;
      }
    }
    return true, affected, |matches|;
  }
}
