/** The operations of a redo-log frame and what applying them does to the graph. */
module RedoLog {
  import opened Bytes
  import opened PropertyGraph
  import BsonReader

  const INSERT_NODE: u32 := 0
  const INSERT_EDGE: u32 := 1
  const UPDATE_NODE: u32 := 2
  const UPDATE_EDGE: u32 := 3
  const DELETE_NODE: u32 := 4
  const DELETE_EDGE: u32 := 5

  /** A resolved operation; the payload is a document handle, None where the pointer is null. */
  datatype Operation = Operation(opcode: u32, id: u64, source: u64, destination: u64, detach: bool,
                                 payload: Option<seq<byte>>)

  /** Why an operation was not applied. */
  datatype Failure = Refused | IdMismatch | UnknownOpcode

  /** The graph left behind, and whether the operation succeeded. */
  datatype Applied = Applied(graph: Graph, failure: Option<Failure>) {
    predicate Ok() { failure == None }
  }

  /** A store operation that leaves the graph alone when it is refused. */
  function Attempt(g: Graph, r: Option<Graph>): Applied {
    match r
    case Some(g') => Applied(g', None)
    case None => Applied(g, Some(Refused))
  }

  /** An insert must be given the id the log predicts; the object stays even when it is not. */
  function CheckId(r: Applied, given: nat, expected: nat): Applied {
    if r.Ok() && given != expected then r.(failure := Some(IdMismatch)) else r
  }

  /** One round of linklet_wal_apply: inserts of present ids and changes of absent ids are skipped. */
  function ApplyOperation(g: Graph, op: Operation): Applied {
    if op.opcode == INSERT_NODE then
      if op.id in g.nodes then Applied(g, None)
      else if op.payload.None? then Applied(g, Some(Refused))
      else CheckId(Attempt(g, InsertNode(g, BsonReader.DocumentBytes(op.payload.value))), g.nextNode, op.id)
    else if op.opcode == INSERT_EDGE then
      if op.id in g.edges then Applied(g, None)
      else if op.payload.None? then Applied(g, Some(Refused))
      else CheckId(Attempt(g, InsertEdge(g, op.source, op.destination, BsonReader.DocumentBytes(op.payload.value))),
          g.nextEdge, op.id)
    else if op.opcode == UPDATE_NODE then
      if op.id !in g.nodes then Applied(g, None)
      else if op.payload.None? then Applied(g, Some(Refused))
      else Attempt(g, UpdateNode(g, op.id, BsonReader.DocumentBytes(op.payload.value)))
    else if op.opcode == UPDATE_EDGE then
      if op.id !in g.edges then Applied(g, None)
      else if op.payload.None? then Applied(g, Some(Refused))
      else Attempt(g, UpdateEdge(g, op.id, BsonReader.DocumentBytes(op.payload.value)))
    else if op.opcode == DELETE_NODE then
      if op.id !in g.nodes then Applied(g, None)
      else Attempt(g, DeleteNode(g, op.id, op.detach))
    else if op.opcode == DELETE_EDGE then
      if op.id !in g.edges then Applied(g, None)
      else Attempt(g, DeleteEdge(g, op.id))
    else Applied(g, Some(UnknownOpcode))
  }

  /** The first `n` operations applied in order, stopping at a failure. */
  function ApplyFirst(g: Graph, ops: seq<Operation>, n: nat): Applied
    requires n <= |ops|
  {
    if n == 0 then Applied(g, None)
    else
      var r := ApplyFirst(g, ops, n - 1);
      if r.Ok() then ApplyOperation(r.graph, ops[n - 1]) else r
  }

  function ApplyAll(g: Graph, ops: seq<Operation>): Applied { ApplyFirst(g, ops, |ops|) }

  /** A failure ends the frame: nothing behind it is applied. */
  lemma {:induction false} FailureSticks(g: Graph, ops: seq<Operation>, n: nat, m: nat)
    requires n <= m <= |ops| && !ApplyFirst(g, ops, n).Ok()
    ensures ApplyFirst(g, ops, m) == ApplyFirst(g, ops, n)
    decreases m
  {
    if n < m {
      hide ApplyOperation;
      FailureSticks(g, ops, n, m - 1);
    }
  }

  /** Nothing happening is an evolution too. */
  lemma EvolvesStay(g: Graph)
    requires GraphOk(g)
    ensures Evolves(g, g)
  {
  }

  lemma ApplyEvolves(g: Graph, op: Operation)
    requires GraphOk(g)
    ensures Evolves(g, ApplyOperation(g, op).graph)
  {
    hide InsertNode, InsertEdge, UpdateNode, UpdateEdge, DeleteNode, DeleteEdge, BsonReader.DocumentBytes;
    hide Evolves, GraphOk;
    EvolvesStay(g);
    var doc := if op.payload.Some? then BsonReader.DocumentBytes(op.payload.value) else [];
    InsertsEvolve(g, op.source, op.destination, doc);
    UpdatesEvolve(g, op.id, doc);
    DeletesEvolve(g, op.id, op.detach);
  }

  lemma EvolvesTransitive(a: Graph, b: Graph, c: Graph)
    requires GraphOk(a) && Evolves(a, b) && Evolves(b, c)
    ensures Evolves(a, c)
  {
  }
}
