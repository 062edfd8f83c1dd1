/** The abstract graph: documents of live nodes and edges, edge endpoints, and the next ids. */
module PropertyGraph {
  import opened Bytes
  import BsonFormat
  import PageLayout

  datatype EdgeRecord = EdgeRecord(source: nat, destination: nat, doc: seq<byte>)

  datatype Graph = Graph(nodes: map<nat, seq<byte>>, edges: map<nat, EdgeRecord>, nextNode: nat, nextEdge: nat)

  const EMPTY_GRAPH: Graph := Graph(map[], map[], 0, 0)

  /** Ids below the next one, and no dangling edge. */
  ghost predicate GraphOk(g: Graph) {
    && (forall id :: id in g.nodes ==> id < g.nextNode)
    && (forall id :: id in g.edges ==> id < g.nextEdge)
    && (forall id :: id in g.edges ==> g.edges[id].source in g.nodes && g.edges[id].destination in g.nodes)
  }

  /** A document the object files take: valid, and small enough for a page. */
  predicate Storable(doc: seq<byte>) {
    BsonFormat.ValidDocument(doc) && |doc| <= PageLayout.MAX_OBJECT_SIZE
  }

  predicate Incident(e: EdgeRecord, node: nat) { e.source == node || e.destination == node }

  // ----- The operations; None where the store reports an error -----

  function InsertNode(g: Graph, doc: seq<byte>): Option<Graph> {
    if Storable(doc) then Some(g.(nodes := g.nodes[g.nextNode := doc], nextNode := g.nextNode + 1)) else None
  }

  function InsertEdge(g: Graph, source: nat, destination: nat, doc: seq<byte>): Option<Graph> {
    if source in g.nodes && destination in g.nodes && Storable(doc)
    then Some(g.(edges := g.edges[g.nextEdge := EdgeRecord(source, destination, doc)], nextEdge := g.nextEdge + 1))
    else None
  }

  function UpdateNode(g: Graph, id: nat, doc: seq<byte>): Option<Graph> {
    if id in g.nodes && Storable(doc) then Some(g.(nodes := g.nodes[id := doc])) else None
  }

  function UpdateEdge(g: Graph, id: nat, doc: seq<byte>): Option<Graph> {
    if id in g.edges && Storable(doc) then Some(g.(edges := g.edges[id := g.edges[id].(doc := doc)])) else None
  }

  function DeleteEdge(g: Graph, id: nat): Option<Graph> {
    if id in g.edges then Some(g.(edges := g.edges - {id})) else None
  }

  predicate HasIncident(g: Graph, node: nat) { exists e :: e in g.edges && Incident(g.edges[e], node) }

  function WithoutIncident(edges: map<nat, EdgeRecord>, node: nat): map<nat, EdgeRecord> {
    map e | e in edges && !Incident(edges[e], node) :: edges[e]
  }

  function DeleteNode(g: Graph, id: nat, detach: bool): Option<Graph> {
    if id in g.nodes && (detach || !HasIncident(g, id))
    then Some(g.(nodes := g.nodes - {id}, edges := WithoutIncident(g.edges, id)))
    else None
  }

  /** Every operation keeps the graph in order, hands out no id twice and revives none. */
  ghost predicate Evolves(g: Graph, g': Graph) {
    && GraphOk(g')
    && g.nextNode <= g'.nextNode && g.nextEdge <= g'.nextEdge
    && (forall id :: id in g'.nodes && id !in g.nodes ==> g.nextNode <= id)
    && (forall id :: id in g'.edges && id !in g.edges ==> g.nextEdge <= id)
    && (forall id :: id in g'.edges && id in g.edges ==>
          g'.edges[id].source == g.edges[id].source && g'.edges[id].destination == g.edges[id].destination)
  }

  lemma InsertsEvolve(g: Graph, source: nat, destination: nat, doc: seq<byte>)
    requires GraphOk(g)
    ensures InsertNode(g, doc).Some? ==> Evolves(g, InsertNode(g, doc).value)
    ensures InsertEdge(g, source, destination, doc).Some? ==> Evolves(g, InsertEdge(g, source, destination, doc).value)
  {
    hide BsonFormat.ValidDocument;
  }

  lemma UpdatesEvolve(g: Graph, id: nat, doc: seq<byte>)
    requires GraphOk(g)
    ensures UpdateNode(g, id, doc).Some? ==> Evolves(g, UpdateNode(g, id, doc).value)
    ensures UpdateEdge(g, id, doc).Some? ==> Evolves(g, UpdateEdge(g, id, doc).value)
  {
    hide BsonFormat.ValidDocument;
  }

  lemma DeletesEvolve(g: Graph, id: nat, detach: bool)
    requires GraphOk(g)
    ensures DeleteEdge(g, id).Some? ==> Evolves(g, DeleteEdge(g, id).value)
    ensures DeleteNode(g, id, detach).Some? ==> Evolves(g, DeleteNode(g, id, detach).value)
  {
  }

  /** An insert adds one object under the next id, as given, and changes no other. */
  lemma InsertsExactly(g: Graph, source: nat, destination: nat, doc: seq<byte>)
    requires GraphOk(g)
    ensures InsertNode(g, doc).Some? <==> Storable(doc)
    ensures InsertEdge(g, source, destination, doc).Some? <==>
              Storable(doc) && source in g.nodes && destination in g.nodes
    ensures InsertNode(g, doc).Some? ==>
              var g' := InsertNode(g, doc).value;
              && g.nextNode in g'.nodes && g'.nodes[g.nextNode] == doc
              && g'.nodes - {g.nextNode} == g.nodes && g'.edges == g.edges
              && g'.nextNode == g.nextNode + 1 && g'.nextEdge == g.nextEdge
    ensures InsertEdge(g, source, destination, doc).Some? ==>
              var g' := InsertEdge(g, source, destination, doc).value;
              && g.nextEdge in g'.edges
              && g'.edges[g.nextEdge].source == source && g'.edges[g.nextEdge].destination == destination
              && g'.edges[g.nextEdge].doc == doc
              && g'.edges - {g.nextEdge} == g.edges && g'.nodes == g.nodes
              && g'.nextEdge == g.nextEdge + 1 && g'.nextNode == g.nextNode
  {
    hide Storable;
  }

  /** An update replaces the document of one live object, and moves neither endpoints nor counters. */
  lemma UpdatesExactly(g: Graph, id: nat, doc: seq<byte>)
    ensures UpdateNode(g, id, doc).Some? <==> Storable(doc) && id in g.nodes
    ensures UpdateEdge(g, id, doc).Some? <==> Storable(doc) && id in g.edges
    ensures UpdateNode(g, id, doc).Some? ==>
              var g' := UpdateNode(g, id, doc).value;
              && g'.nodes.Keys == g.nodes.Keys && g'.nodes[id] == doc && g'.nodes - {id} == g.nodes - {id}
              && g'.edges == g.edges && g'.nextNode == g.nextNode && g'.nextEdge == g.nextEdge
    ensures UpdateEdge(g, id, doc).Some? ==>
              var g' := UpdateEdge(g, id, doc).value;
              && g'.edges.Keys == g.edges.Keys && g'.edges[id].doc == doc
              && g'.edges[id].source == g.edges[id].source && g'.edges[id].destination == g.edges[id].destination
              && g'.edges - {id} == g.edges - {id} && g'.nodes == g.nodes
              && g'.nextNode == g.nextNode && g'.nextEdge == g.nextEdge
  {
    hide Storable;
  }

  /**
   * A DETACH deletion removes the node and its incident edges and nothing else; a plain deletion
   * removes the node alone.
   */
  lemma DeleteNodeExactly(g: Graph, id: nat, detach: bool)
    requires GraphOk(g) && DeleteNode(g, id, detach).Some?
    ensures var g' := DeleteNode(g, id, detach).value;
            && g'.nodes == g.nodes - {id}
            && (forall e :: e in g'.edges <==> e in g.edges && !Incident(g.edges[e], id))
            && (forall e :: e in g'.edges ==> g'.edges[e] == g.edges[e])
            && (!detach ==> g'.edges == g.edges)
            && g'.nextNode == g.nextNode && g'.nextEdge == g.nextEdge
  {
    if !detach {
      forall e | e in g.edges ensures !Incident(g.edges[e], id) {
        assert !HasIncident(g, id);
      }
    }
  }
}
