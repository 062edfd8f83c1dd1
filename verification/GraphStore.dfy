/** The graph store: two object files and an array of edge endpoints, kept consistent. */
module GraphStore {
  import opened Bytes
  import opened PropertyGraph
  import BsonFormat
  import BsonReader
  import opened PagedObjectFile
  import opened Connectivity

  const DEFAULT_EDGE_CAPACITY: nat := 16

  const NODES_MAGIC: seq<byte> := [76, 78, 75, 78, 79, 68, 50, 0]
  const EDGES_MAGIC: seq<byte> := [76, 78, 75, 69, 68, 71, 50, 0]

  /** The files agree on the id domains, and with each other edge by edge. */
  ghost predicate CrossChecked(nodes: map<nat, seq<byte>>, edges: map<nat, seq<byte>>, coo: seq<CooEdge>,
                               edgeCount: nat)
    requires edgeCount <= |coo|
  {
    forall id: nat {:trigger coo[id]} :: id < edgeCount ==>
      && (id in edges <==> !IsDeleted(coo[id]))
      && (id in edges ==> coo[id].source in nodes && coo[id].destination in nodes)
  }

  function EdgeRecords(edges: map<nat, seq<byte>>, coo: seq<CooEdge>): (records: map<nat, EdgeRecord>)
    requires forall id :: id in edges ==> id < |coo|
    ensures records.Keys == edges.Keys
  {
    map id | id in edges :: EdgeRecord(coo[id].source, coo[id].destination, edges[id])
  }

  // ----- What the writes to the object file and the array do to the edge records -----

  lemma RecordsGrow(edges: map<nat, seq<byte>>, coo: seq<CooEdge>, coo': seq<CooEdge>)
    requires forall id :: id in edges ==> id < |coo|
    requires coo <= coo'
    ensures EdgeRecords(edges, coo') == EdgeRecords(edges, coo)
  {
  }

  lemma RecordsInsert(edges: map<nat, seq<byte>>, coo: seq<CooEdge>, id: nat, e: CooEdge, doc: seq<byte>)
    requires (forall x :: x in edges ==> x < |coo|) && id < |coo|
    ensures EdgeRecords(edges[id := doc], coo[id := e]) ==
            EdgeRecords(edges, coo)[id := EdgeRecord(e.source, e.destination, doc)]
  {
  }

  lemma RecordsUpdate(edges: map<nat, seq<byte>>, coo: seq<CooEdge>, id: nat, doc: seq<byte>)
    requires (forall x :: x in edges ==> x < |coo|) && id in edges
    ensures EdgeRecords(edges[id := doc], coo) ==
              EdgeRecords(edges, coo)[id := EdgeRecords(edges, coo)[id].(doc := doc)]
  {
  }

  lemma RecordsDelete(edges: map<nat, seq<byte>>, coo: seq<CooEdge>, id: nat, e: CooEdge)
    requires (forall x :: x in edges ==> x < |coo|) && id < |coo|
    ensures EdgeRecords(edges - {id}, coo[id := e]) == EdgeRecords(edges, coo) - {id}
  {
  }

  lemma CheckedInsert(nodes: map<nat, seq<byte>>, edges: map<nat, seq<byte>>, coo: seq<CooEdge>, count: nat, e: CooEdge,
                      doc: seq<byte>)
    requires count < |coo| && CrossChecked(nodes, edges, coo, count)
    requires e.source in nodes && e.destination in nodes && !IsDeleted(e)
    ensures CrossChecked(nodes, edges[count := doc], coo[count := e], count + 1)
  {
  }

  lemma CheckedUpdate(nodes: map<nat, seq<byte>>, edges: map<nat, seq<byte>>, coo: seq<CooEdge>, count: nat, id: nat,
                      doc: seq<byte>)
    requires count <= |coo| && id in edges && CrossChecked(nodes, edges, coo, count)
    ensures CrossChecked(nodes, edges[id := doc], coo, count)
  {
  }

  lemma CheckedDelete(nodes: map<nat, seq<byte>>, edges: map<nat, seq<byte>>, coo: seq<CooEdge>, count: nat, id: nat)
    requires count <= |coo| && id < count && CrossChecked(nodes, edges, coo, count)
    ensures CrossChecked(nodes, edges - {id}, coo[id := TOMBSTONE], count)
  {
  }

  lemma CheckedGraphOk(nodes: map<nat, seq<byte>>, edges: map<nat, seq<byte>>, coo: seq<CooEdge>, nextNode: nat,
                       nextEdge: nat)
    requires nextEdge <= |coo| && CrossChecked(nodes, edges, coo, nextEdge)
    requires (forall id :: id in nodes ==> id < nextNode) && (forall id :: id in edges ==> id < nextEdge)
    ensures GraphOk(PropertyGraph.Graph(nodes, EdgeRecords(edges, coo), nextNode, nextEdge))
  {
    forall id | id in edges ensures coo[id].source in nodes && coo[id].destination in nodes {
      assert id < nextEdge && coo[id] == coo[id];
    }
  }

  class Store {
    const nodes: ObjectFile
    const edges: ObjectFile
    var coo: seq<CooEdge>  // the mapped records; its length is the edge capacity
    var edgeCount: nat
    var vertexIdCapacity: nat

    ghost predicate Valid()
      reads this, nodes, edges
    {
      && nodes != edges && nodes.Valid() && edges.Valid()
      && edgeCount <= |coo| && RecordPosition(|coo|) <= INT64_MAX
      && edgeCount == edges.header.nextId && vertexIdCapacity == nodes.header.nextId
      && (forall id :: id in nodes.Contents() ==> id < nodes.header.nextId)
      && (forall id :: id in edges.Contents() ==> id < edgeCount)
      && CrossChecked(nodes.Contents(), edges.Contents(), coo, edgeCount)
    }

    ghost function Graph(): Graph
      requires Valid()
      reads this, nodes, edges
    {
      PropertyGraph.Graph(
        nodes.Contents(), EdgeRecords(edges.Contents(), coo), nodes.header.nextId, edges.header.nextId)
    }

    /** The store is in order and stands for the graph. */
    ghost predicate Represents(g: Graph)
      reads this, nodes, edges
    {
      Valid() && g == Graph()
    }

    /** Graph integrity: no live edge dangles. */
    lemma GraphInOrder()
      requires Valid()
      ensures GraphOk(Graph())
    {
      hide ObjectFile.Valid, ObjectFile.Contents;
      CheckedGraphOk(nodes.Contents(), edges.Contents(), coo, nodes.header.nextId, edges.header.nextId);
    }

    /** Every stored document is valid. */
    lemma DocumentsValid()
      requires Valid()
      ensures forall id :: id in Graph().nodes ==> BsonFormat.ValidDocument(Graph().nodes[id])
      ensures forall id :: id in Graph().edges ==> BsonFormat.ValidDocument(Graph().edges[id].doc)
    {
      hide ObjectFile.Valid, ObjectFile.Contents, BsonFormat.ValidDocument;
      nodes.ContentsValid();
      edges.ContentsValid();
    }

    /** None of the files is at its size limit. */
    ghost predicate Room()
      reads this, nodes, edges
    {
      && nodes.CanGrow() && edges.CanGrow()
      && nodes.header.nextId < MAX_LOCATIONS && edges.header.nextId < MAX_LOCATIONS
      && RecordPosition(2 * (|coo| + DEFAULT_EDGE_CAPACITY)) <= INT64_MAX
    }

    constructor Empty(capacity: nat)
      requires RecordPosition(capacity) <= INT64_MAX
      ensures Valid() && Graph() == EMPTY_GRAPH && |coo| == capacity
      ensures fresh(nodes) && fresh(edges)
    {
      nodes := new ObjectFile();
      edges := new ObjectFile();
      coo := seq(capacity, _ => CooEdge(0, 0));
      edgeCount, vertexIdCapacity := 0, 0;
      new;
      nodes.Initialize(NODES_MAGIC);
      edges.Initialize(EDGES_MAGIC);
    }

    /** A store over files already open. */
    constructor Attach(nodes: ObjectFile, edges: ObjectFile, coo: seq<CooEdge>, edgeCount: nat, vertexIdCapacity: nat)
      ensures this.nodes == nodes && this.edges == edges
      ensures this.coo == coo && this.edgeCount == edgeCount && this.vertexIdCapacity == vertexIdCapacity
    {
      this.nodes, this.edges := nodes, edges;
      this.coo, this.edgeCount, this.vertexIdCapacity := coo, edgeCount, vertexIdCapacity;
    }

    /** linklet_graph_store_insert_node */
    method InsertNode(bson: seq<byte>) returns (ok: bool, id: nat)
      requires Valid()
      modifies this, nodes
      ensures Room() ==> old(Room())
      ensures Valid()
      ensures var r := PropertyGraph.InsertNode(old(Graph()), BsonReader.DocumentBytes(bson));
              && (ok ==> r == Some(Graph()) && id == old(Graph()).nextNode)
              && (!ok ==> Graph() == old(Graph()))
              && (old(Room()) && r.Some? ==> ok)
    {
      hide ObjectFile.Valid, ObjectFile.Contents, BsonFormat.ValidDocument, BsonReader.DocumentBytes;
      ok, id := nodes.Insert(bson);
      if ok {
        vertexIdCapacity := nodes.header.nextId;
      }
    }

    /** Doubles the mapped array; the new records are zero. */
    method GrowConnectivity() returns (ok: bool)
      modifies this`coo
      ensures old(coo) <= coo
      ensures ok ==> |old(coo)| < |coo| && RecordPosition(|coo|) <= INT64_MAX
      ensures !ok ==> coo == old(coo)
      ensures ok ==> |coo| == if old(coo) == [] then 16 else 2 * |old(coo)|
      ensures RecordPosition(2 * (|old(coo)| + DEFAULT_EDGE_CAPACITY)) <= INT64_MAX ==> ok
    {
      if |coo| > SIZE_MAX / 2 {
        return false;
      }
      var capacity := if coo != [] then 2 * |coo| else DEFAULT_EDGE_CAPACITY;
      if !CheckedSize(capacity) || RecordPosition(capacity) > INT64_MAX {
        return false;
      }
      coo := coo + seq(capacity - |coo|, _ => CooEdge(0, 0));
      ok := true;
    }

    /** Room for one more record. */
    method EnsureConnectivity() returns (ok: bool)
      requires Valid()
      modifies this`coo
      ensures Room() ==> old(Room())
      ensures Valid() && Graph() == old(Graph())
      ensures ok ==> edgeCount < |coo|
      ensures old(Room()) ==> ok
    {
      hide ObjectFile.Valid, ObjectFile.Contents, EdgeRecords;
      ok := true;
      if edgeCount == |coo| {
        ok := GrowConnectivity();
        RecordsGrow(edges.Contents(), old(coo), coo);
      }
    }

    /** linklet_graph_store_insert_edge */
    method InsertEdge(source: u64, destination: u64, bson: seq<byte>) returns (ok: bool, id: nat)
      requires Valid()
      modifies this, edges
      ensures Room() ==> old(Room())
      ensures Valid()
      ensures var r := PropertyGraph.InsertEdge(old(Graph()), source, destination, BsonReader.DocumentBytes(bson));
              && (ok ==> r == Some(Graph()) && id == old(Graph()).nextEdge)
              && (!ok ==> Graph() == old(Graph()))
              && (old(Room()) && r.Some? ==> ok)
    {
      hide ObjectFile.Valid, ObjectFile.Contents, BsonFormat.ValidDocument, BsonReader.DocumentBytes;
      hide EdgeRecords, CrossChecked;
      id := 0;
      var sourceExists := nodes.Exists(source);
      var destinationExists := nodes.Exists(destination);
      if !sourceExists || !destinationExists {
        return false, 0;
      }
      var room := EnsureConnectivity();
      if !room {
        return false, 0;
      }
      ok, id := StoreEdge(CooEdge(source, destination), bson);
    }

    /** Edge document first, then its endpoints and the new count. */
    method StoreEdge(e: CooEdge, bson: seq<byte>) returns (ok: bool, id: nat)
      requires Valid() && edgeCount < |coo|
      requires e.source in nodes.Contents() && e.destination in nodes.Contents() && !IsDeleted(e)
      modifies this, edges
      ensures Room() ==> old(Room())
      ensures Valid()
      ensures var r := PropertyGraph.InsertEdge(old(Graph()), e.source, e.destination, BsonReader.DocumentBytes(bson));
              && (ok ==> r == Some(Graph()) && id == old(Graph()).nextEdge)
              && (!ok ==> Graph() == old(Graph()))
              && (old(edges.CanGrow()) && old(edges.header.nextId) < MAX_LOCATIONS && r.Some? ==> ok)
    {
      hide ObjectFile.Valid, ObjectFile.Contents, BsonFormat.ValidDocument, BsonReader.DocumentBytes;
      hide EdgeRecords, CrossChecked;
      ghost var docs, doc := edges.Contents(), BsonReader.DocumentBytes(bson);
      ok, id := edges.Insert(bson);
      if ok {
        CheckedInsert(nodes.Contents(), docs, coo, edgeCount, e, doc);
        RecordsInsert(docs, coo, id, e, doc);
        coo := coo[id := e];
        edgeCount := id + 1;
      }
    }

    /** linklet_graph_store_update_node */
    method UpdateNode(id: u64, bson: seq<byte>) returns (ok: bool)
      requires Valid()
      modifies nodes
      ensures Room() ==> old(Room())
      ensures Valid()
      ensures var r := PropertyGraph.UpdateNode(old(Graph()), id, BsonReader.DocumentBytes(bson));
              && (ok ==> r == Some(Graph()))
              && (!ok ==> Graph() == old(Graph()))
              && (old(Room()) && r.Some? ==> ok)
    {
      hide ObjectFile.Valid, ObjectFile.Contents, BsonFormat.ValidDocument, BsonReader.DocumentBytes;
      ok := nodes.Update(id, bson);
      assert ok ==> nodes.Contents().Keys == old(nodes.Contents()).Keys;
    }

    /** linklet_graph_store_update_edge */
    method UpdateEdge(id: u64, bson: seq<byte>) returns (ok: bool)
      requires Valid()
      modifies edges
      ensures Room() ==> old(Room())
      ensures Valid()
      ensures var r := PropertyGraph.UpdateEdge(old(Graph()), id, BsonReader.DocumentBytes(bson));
              && (ok ==> r == Some(Graph()))
              && (!ok ==> Graph() == old(Graph()))
              && (old(Room()) && r.Some? ==> ok)
    {
      hide ObjectFile.Valid, ObjectFile.Contents, BsonFormat.ValidDocument, BsonReader.DocumentBytes;
      hide EdgeRecords, CrossChecked;
      ghost var docs := edges.Contents();
      ok := edges.Update(id, bson);
      if ok {
        RecordsUpdate(docs, coo, id, BsonReader.DocumentBytes(bson));
        CheckedUpdate(nodes.Contents(), docs, coo, edgeCount, id, BsonReader.DocumentBytes(bson));
      }
    }

    /** linklet_graph_store_delete_edge */
    method DeleteEdge(id: u64) returns (ok: bool)
      requires Valid()
      modifies this`coo, edges
      ensures Room() ==> old(Room())
      ensures Valid()
      ensures var r := PropertyGraph.DeleteEdge(old(Graph()), id);
              ok == r.Some? && Graph() == (if ok then r.value else old(Graph()))
      ensures |coo| == |old(coo)| && edges.header.pageCount == old(edges.header.pageCount)
      ensures forall e: nat :: e < |coo| && e != id ==> coo[e] == old(coo)[e]
      ensures ok ==> id < |coo| && coo[id] == TOMBSTONE
    {
      hide ObjectFile.Valid, ObjectFile.Contents, EdgeRecords, CrossChecked;
      ok := false;
      if id < edgeCount {
        ghost var docs := edges.Contents();
        ok := edges.Delete(id);
        if ok {
          CheckedDelete(nodes.Contents(), docs, coo, edgeCount, id);
          RecordsDelete(docs, coo, id, TOMBSTONE);
          coo := coo[id := TOMBSTONE];
        }
      }
    }

    /** linklet_graph_store_delete_node: refuses a node with edges, or removes them first. */
    method DeleteNode(id: u64, detach: bool) returns (ok: bool)
      requires Valid()
      modifies this`coo, nodes, edges
      ensures Room() ==> old(Room())
      ensures Valid()
      ensures var r := PropertyGraph.DeleteNode(old(Graph()), id, detach);
              ok == r.Some? && Graph() == (if ok then r.value else old(Graph()))
    {
      hide ObjectFile.Valid, ObjectFile.Contents;
      var live := nodes.Exists(id);
      if !live {
        return false;
      }
      var incident := FindIncident(id);
      if incident && !detach {
        return false;
      }
      if detach {
        DetachEdges(id);
      } else {
        assert WithoutIncident(Graph().edges, id) == Graph().edges;
      }
      ok := RemoveNode(id);
    }

    /** Whether some live edge has the node as an endpoint. */
    method FindIncident(node: u64) returns (found: bool)
      requires Valid()
      ensures found <==> HasIncident(Graph(), node)
    {
      hide ObjectFile.Valid, ObjectFile.Contents;
      var e := 0;
      while e < edgeCount
        invariant 0 <= e <= edgeCount
        invariant forall x: nat :: x in Graph().edges && x < e ==> !Incident(Graph().edges[x], node)
      {
        if !IsDeleted(coo[e]) && (coo[e].source == node || coo[e].destination == node) {
          assert e in Graph().edges && Incident(Graph().edges[e], node);
          return true;
        }
        e := e + 1;
      }
      return false;
    }

    /** The node object of a node without edges. */
    method RemoveNode(id: u64) returns (ok: bool)
      requires Valid() && id in Graph().nodes && !HasIncident(Graph(), id)
      modifies nodes
      ensures Room() ==> old(Room())
      ensures Valid() && ok && Graph() == old(Graph()).(nodes := old(Graph()).nodes - {id})
    {
      hide ObjectFile.Valid, ObjectFile.Contents;
      ghost var g := Graph();
      forall e: nat | e in edges.Contents() ensures coo[e].source != id && coo[e].destination != id {
        assert e in g.edges && !Incident(g.edges[e], id);
      }
      ok := nodes.Delete(id);
    }

    /** The DETACH loop. */
    method DetachEdges(node: u64)
      requires Valid()
      modifies this`coo, edges
      ensures Room() ==> old(Room())
      ensures Valid()
      ensures Graph() == old(Graph()).(edges := WithoutIncident(old(Graph()).edges, node))
      ensures !HasIncident(Graph(), node)
    {
      hide ObjectFile.Valid, ObjectFile.Contents, EdgeRecords, CrossChecked, EdgesFrom;
      GraphInOrder();
      ghost var before := Graph();
      var e := 0;
      EdgesFromEnds(before.edges, node, edgeCount);
      while e < edgeCount
        invariant 0 <= e <= edgeCount == before.nextEdge
        invariant Represents(before.(edges := EdgesFrom(before.edges, node, e)))
        invariant Room() ==> old(Room())
      {
        DetachEdge(node, e, before);
        e := e + 1;
      }
    }

    /** One turn of it: the edge goes if it is live and incident. */
    method DetachEdge(node: u64, e: u64, ghost before: Graph)
      requires Represents(before.(edges := EdgesFrom(before.edges, node, e))) && e < edgeCount
      modifies this`coo, edges
      ensures Room() ==> old(Room())
      ensures Represents(before.(edges := EdgesFrom(before.edges, node, e + 1)))
    {
      hide ObjectFile.Valid, ObjectFile.Contents, EdgeRecords, EdgesFrom;
      var r := CooAt(e, Graph());
      EdgesFromStep(before.edges, node, e);
      EdgesFromHas(before.edges, node, e);
      if !IsDeleted(r) && (r.source == node || r.destination == node) {
        var deleted := DeleteEdge(e);
      }
    }

    /** linklet_graph_store_node_exists */
    method NodeExists(id: u64, ghost g: Graph) returns (r: bool)
      requires Represents(g)
      ensures r <==> id in g.nodes
    {
      hide ObjectFile.Valid, ObjectFile.Contents;
      r := nodes.Exists(id);
    }

    /** linklet_graph_store_edge_exists */
    method EdgeExists(id: u64, ghost g: Graph) returns (r: bool)
      requires Represents(g)
      ensures r <==> id in g.edges
    {
      hide ObjectFile.Valid, ObjectFile.Contents;
      r := edges.Exists(id);
    }

    /** linklet_graph_store_read_node */
    method ReadNode(id: u64, ghost g: Graph) returns (ok: bool, doc: seq<byte>)
      requires Represents(g)
      ensures (ok <==> id in g.nodes) && (ok ==> doc == g.nodes[id])
    {
      hide ObjectFile.Valid, ObjectFile.Contents;
      ok, doc := nodes.Read(id);
    }

    /** linklet_graph_store_read_edge */
    method ReadEdge(id: u64, ghost g: Graph) returns (ok: bool, doc: seq<byte>)
      requires Represents(g)
      ensures (ok <==> id in g.edges) && (ok ==> doc == g.edges[id].doc)
    {
      hide ObjectFile.Valid, ObjectFile.Contents;
      ok, doc := edges.Read(id);
    }

    /** linklet_graph_store_edge_endpoints */
    method EdgeEndpoints(id: u64, ghost g: Graph) returns (ok: bool, source: nat, destination: nat)
      requires Represents(g)
      ensures (ok <==> id in g.edges) && (ok ==> source == g.edges[id].source && destination == g.edges[id].destination)
    {
      hide ObjectFile.Valid, ObjectFile.Contents;
      ok := edges.Exists(id);
      if ok {
        source, destination := coo[id].source, coo[id].destination;
      } else {
        source, destination := 0, 0;
      }
    }

    /** The id capacities, node and edge. */
    method IdCapacities(ghost g: Graph) returns (nodeIds: u64, edgeIds: u64)
      requires Represents(g)
      ensures nodeIds == g.nextNode && edgeIds == g.nextEdge
    {
      hide ObjectFile.Valid, ObjectFile.Contents;
      nodeIds, edgeIds := nodes.header.nextId, edges.header.nextId;
    }

    /** validate_graph_files */
    method ValidateGraphFiles() returns (ok: bool)
      requires nodes.Valid() && edges.Valid() && edgeCount <= |coo|
      ensures ok <==>
              && edgeCount == edges.header.nextId && vertexIdCapacity == nodes.header.nextId
              && CrossChecked(nodes.Contents(), edges.Contents(), coo, edgeCount)
    {
      hide ObjectFile.Valid, ObjectFile.Contents;
      if edgeCount != edges.header.nextId || vertexIdCapacity != nodes.header.nextId {
        return false;
      }
      var e := 0;
      while e < edgeCount
        invariant 0 <= e <= edgeCount
        invariant CrossChecked(nodes.Contents(), edges.Contents(), coo, e)
      {
        var present := edges.Exists(e);
        if present == IsDeleted(coo[e]) {
          return false;
        }
        if present {
          var source := nodes.Exists(coo[e].source);
          var destination := nodes.Exists(coo[e].destination);
          if !source || !destination {
            return false;
          }
        }
        e := e + 1;
      }
      return true;
    }

    /** A record of the array, and what it says of the graph. */
    method CooAt(e: nat, ghost g: Graph) returns (r: CooEdge)
      requires Represents(g) && e < edgeCount
      ensures e in g.edges <==> !IsDeleted(r)
      ensures !IsDeleted(r) ==> g.edges[e].source == r.source && g.edges[e].destination == r.destination
    {
      hide ObjectFile.Valid, ObjectFile.Contents;
      r := coo[e];
    }
  }

  /** linklet_graph_store_create: refused exactly when the connectivity file would be too large. */
  method Create(initialEdgeCapacity: nat) returns (ok: bool, store: Store?)
    ensures ok <==> RecordPosition(initialEdgeCapacity) <= INT64_MAX
    ensures ok ==> store != null && fresh(store) && fresh(store.nodes) && fresh(store.edges)
    ensures ok ==> store.Valid() && store.Graph() == EMPTY_GRAPH
    ensures ok ==> |store.coo| == if initialEdgeCapacity == 0 then 16 else initialEdgeCapacity
  {
    var capacity := if initialEdgeCapacity == 0 then DEFAULT_EDGE_CAPACITY else initialEdgeCapacity;
    if !CheckedSize(capacity) || RecordPosition(capacity) > INT64_MAX {
      return false, null;
    }
    store := new Store.Empty(capacity);
    ok := true;
  }

  /** The connectivity file of a store. */
  function ConnectivityFile(store: Store): seq<byte>
    requires |store.coo| <= UINT64_MAX && store.edgeCount <= UINT64_MAX && store.vertexIdCapacity <= UINT64_MAX
    reads store
  {
    FileOf(store.coo, store.edgeCount, store.vertexIdCapacity)
  }

  lemma CountsFit(store: Store)
    requires store.Valid()
    ensures store.edgeCount <= |store.coo| && CheckedSize(|store.coo|) && store.vertexIdCapacity <= UINT64_MAX
  {
    hide ObjectFile.Valid, ObjectFile.Contents;
  }

  /** Neither object file has more pages than can be opened. */
  ghost predicate Reopens(store: Store)
    reads store, store.nodes, store.edges
  {
    store.nodes.header.pageCount <= UINT32_MAX && store.edges.header.pageCount <= UINT32_MAX
  }

  /**
   * linklet_graph_store_open on the bytes of the three files of a valid store: it succeeds unless
   * an object file has too many pages, and yields the same graph.
   */
  method Reopen(store: Store) returns (ok: bool, again: Store)
    requires store.Valid()
    ensures fresh(again) && fresh(again.nodes) && fresh(again.edges)
    ensures ok <==> Reopens(store)
    ensures ok ==> again.Represents(store.Graph())
  {
    hide ObjectFile.Valid, ObjectFile.Contents, FileOf, Accepted, LoadHeader, Records;
    again := new Store.Empty(DEFAULT_EDGE_CAPACITY);
    CountsFit(store);
    FileReadsBack(ConnectivityFile(store), store.coo, store.edgeCount, store.vertexIdCapacity);
    var mapped, coo, edgeCount, vertexIdCapacity := OpenConnectivity(ConnectivityFile(store));
    var nodesOk, nodes := PagedObjectFile.Reopen(store.nodes);
    var edgesOk, edges := PagedObjectFile.Reopen(store.edges);
    ok := mapped && nodesOk && edgesOk;
    if ok {
      again := new Store.Attach(nodes, edges, coo, edgeCount, vertexIdCapacity);
      ok := again.ValidateGraphFiles();
    }
  }

  /** The edges left when the incident ones below `n` are gone. */
  ghost function EdgesFrom(edges: map<nat, EdgeRecord>, node: nat, n: nat): map<nat, EdgeRecord> {
    map e | e in edges && (e < n ==> !Incident(edges[e], node)) :: edges[e]
  }

  lemma EdgesFromEnds(edges: map<nat, EdgeRecord>, node: nat, n: nat)
    requires forall e :: e in edges ==> e < n
    ensures EdgesFrom(edges, node, 0) == edges
    ensures EdgesFrom(edges, node, n) == WithoutIncident(edges, node)
  {
  }

  lemma EdgesFromHas(edges: map<nat, EdgeRecord>, node: nat, n: nat)
    ensures n in EdgesFrom(edges, node, n) <==> n in edges
    ensures n in edges ==> EdgesFrom(edges, node, n)[n] == edges[n]
  {
  }

  lemma EdgesFromStep(edges: map<nat, EdgeRecord>, node: nat, n: nat)
    ensures EdgesFrom(edges, node, n + 1) ==
            if n in edges && Incident(edges[n], node) then EdgesFrom(edges, node, n) - {n}
            else EdgesFrom(edges, node, n)
  {
  }
}
