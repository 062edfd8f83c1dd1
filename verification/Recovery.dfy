/**
 * Crash recovery: replaying the frame of a commit from whatever state a crash left, any number of
 * times, ends in the state of the uninterrupted commit.
 */
module Recovery {
  import opened Bytes
  import opened PropertyGraph
  import opened RedoLog
  import BsonReader

  // ----- Frames -----

  /** How many of the first `n` operations have the opcode. */
  function Count(ops: seq<Operation>, n: nat, opcode: u32): nat
    requires n <= |ops|
  {
    if n == 0 then 0 else Count(ops, n - 1, opcode) + if ops[n - 1].opcode == opcode then 1 else 0
  }

  /** What commit guarantees of an operation: exact ids for inserts, live ids for everything else. */
  predicate WellFormedAt(g: Graph, ops: seq<Operation>, i: nat)
    requires i < |ops|
  {
    var op := ops[i];
    if op.opcode == INSERT_NODE then op.id == g.nextNode + Count(ops, i, INSERT_NODE)
    else if op.opcode == INSERT_EDGE then op.id == g.nextEdge + Count(ops, i, INSERT_EDGE)
    else if op.opcode == UPDATE_NODE || op.opcode == DELETE_NODE then op.id in g.nodes
    else (op.opcode == UPDATE_EDGE || op.opcode == DELETE_EDGE) && op.id in g.edges
  }

  ghost predicate WellFormed(g: Graph, ops: seq<Operation>) {
    GraphOk(g) && forall i :: 0 <= i < |ops| ==> WellFormedAt(g, ops, i)
  }

  /** Inserting an edge at a node another operation of the frame deletes. */
  predicate Touches(insert: Operation, delete: Operation) {
    && insert.opcode == INSERT_EDGE && delete.opcode == DELETE_NODE
    && (insert.source == delete.id || insert.destination == delete.id)
  }

  /** No inserted edge of the frame touches a node the frame deletes. */
  ghost predicate Untouched(ops: seq<Operation>) {
    forall i, j :: 0 <= i < |ops| && 0 <= j < |ops| ==> !Touches(ops[i], ops[j])
  }

  /** The frame applies without a failure. */
  ghost predicate Clean(g: Graph, ops: seq<Operation>) { ApplyAll(g, ops).Ok() }

  /** The graph after the first `n` operations of the uninterrupted commit. */
  function After(g: Graph, ops: seq<Operation>, n: nat): Graph
    requires n <= |ops|
  {
    ApplyFirst(g, ops, n).graph
  }

  lemma {:induction false} CleanPrefix(g: Graph, ops: seq<Operation>, n: nat, m: nat)
    requires n <= m <= |ops|
    ensures ApplyFirst(g, ops, m).Ok() ==> ApplyFirst(g, ops, n).Ok()
    decreases m
  {
    if n < m {
      CleanPrefix(g, ops, n, m - 1);
    }
  }

  /** One step of the uninterrupted commit. */
  lemma CleanStep(g: Graph, ops: seq<Operation>, i: nat)
    requires Clean(g, ops) && i < |ops|
    ensures ApplyOperation(After(g, ops, i), ops[i]) == Applied(After(g, ops, i + 1), None)
  {
    CleanPrefix(g, ops, i, |ops|);
    CleanPrefix(g, ops, i + 1, |ops|);
  }

  lemma {:induction false} AfterEvolves(g: Graph, ops: seq<Operation>, i: nat, m: nat)
    requires GraphOk(g) && i <= m <= |ops|
    ensures GraphOk(After(g, ops, i)) && Evolves(After(g, ops, i), After(g, ops, m))
    decreases m
  {
    if m == i {
      if m > 0 {
        AfterEvolves(g, ops, i - 1, m - 1);
        ApplyEvolves(After(g, ops, m - 1), ops[m - 1]);
      }
    } else {
      AfterEvolves(g, ops, i, m - 1);
      ApplyEvolves(After(g, ops, m - 1), ops[m - 1]);
      EvolvesTransitive(After(g, ops, i), After(g, ops, m - 1), After(g, ops, m));
    }
  }

  /** Only an insert of an absent id moves a next id. */
  lemma NextIdsStep(g: Graph, op: Operation)
    requires GraphOk(g) && ApplyOperation(g, op).Ok()
    ensures var g' := ApplyOperation(g, op).graph;
            && g'.nextNode == g.nextNode + (if op.opcode == INSERT_NODE && op.id !in g.nodes then 1 else 0)
            && g'.nextEdge == g.nextEdge + (if op.opcode == INSERT_EDGE && op.id !in g.edges then 1 else 0)
  {
    hide BsonReader.DocumentBytes, Storable;
  }

  /** The ids the commit predicted are the ones the store is about to hand out. */
  lemma {:induction false} NextIdsExact(g: Graph, ops: seq<Operation>, n: nat)
    requires WellFormed(g, ops) && n <= |ops| && ApplyFirst(g, ops, n).Ok()
    ensures After(g, ops, n).nextNode == g.nextNode + Count(ops, n, INSERT_NODE)
    ensures After(g, ops, n).nextEdge == g.nextEdge + Count(ops, n, INSERT_EDGE)
  {
    if n > 0 {
      hide ApplyOperation;
      NextIdsExact(g, ops, n - 1);
      AfterEvolves(g, ops, 0, n - 1);
      assert WellFormedAt(g, ops, n - 1);
      NextIdsStep(After(g, ops, n - 1), ops[n - 1]);
    }
  }

  /** Applying a frame that commit built never fails on an id mismatch or an unknown opcode. */
  lemma {:induction false} IdsNeverMismatch(g: Graph, ops: seq<Operation>, n: nat)
    requires WellFormed(g, ops) && n <= |ops|
    ensures ApplyFirst(g, ops, n).failure == None || ApplyFirst(g, ops, n).failure == Some(Refused)
  {
    if n > 0 {
      hide BsonReader.DocumentBytes, Storable;
      IdsNeverMismatch(g, ops, n - 1);
      assert WellFormedAt(g, ops, n - 1);
      if ApplyFirst(g, ops, n - 1).Ok() {
        NextIdsExact(g, ops, n - 1);
      }
    }
  }

  // ----- Facts about the uninterrupted commit -----

  lemma DeadNodeStays(g: Graph, ops: seq<Operation>, i: nat, m: nat, id: nat)
    requires GraphOk(g) && i <= m <= |ops|
    requires id < After(g, ops, i).nextNode
    ensures id !in After(g, ops, i).nodes ==> id !in After(g, ops, m).nodes
  {
    AfterEvolves(g, ops, i, m);
  }

  lemma DeadEdgeStays(g: Graph, ops: seq<Operation>, i: nat, m: nat, id: nat)
    requires GraphOk(g) && i <= m <= |ops|
    requires id < After(g, ops, i).nextEdge
    ensures id !in After(g, ops, i).edges ==> id !in After(g, ops, m).edges
  {
    AfterEvolves(g, ops, i, m);
  }

  /** The object is updated by one of the operations from `i` on, before `m`. */
  predicate Rewrites(ops: seq<Operation>, i: nat, m: nat, opcode: u32, id: nat)
    requires m <= |ops|
  {
    exists k :: i <= k < m && ops[k].opcode == opcode && ops[k].id == id
  }

  lemma NodeDocumentKept(g: Graph, op: Operation, id: nat)
    requires GraphOk(g) && id in g.nodes && id in ApplyOperation(g, op).graph.nodes
    requires !(op.opcode == UPDATE_NODE && op.id == id)
    ensures ApplyOperation(g, op).graph.nodes[id] == g.nodes[id]
  {
    hide BsonReader.DocumentBytes, Storable;
  }

  lemma EdgeDocumentKept(g: Graph, op: Operation, id: nat)
    requires GraphOk(g) && id in g.edges && id in ApplyOperation(g, op).graph.edges
    requires !(op.opcode == UPDATE_EDGE && op.id == id)
    ensures ApplyOperation(g, op).graph.edges[id] == g.edges[id]
  {
    hide BsonReader.DocumentBytes, Storable;
  }

  /** A node alive at both ends and not updated in between keeps its document. */
  lemma {:induction false} NodeDocumentPersists(g: Graph, ops: seq<Operation>, i: nat, m: nat, id: nat)
    requires GraphOk(g) && i <= m <= |ops|
    requires id in After(g, ops, i).nodes && id in After(g, ops, m).nodes
    requires !Rewrites(ops, i, m, UPDATE_NODE, id)
    ensures After(g, ops, m).nodes[id] == After(g, ops, i).nodes[id]
    decreases m
  {
    if i < m {
      hide ApplyOperation;
      AfterEvolves(g, ops, 0, i);
      AfterEvolves(g, ops, i, m - 1);
      DeadNodeStays(g, ops, m - 1, m, id);
      assert !Rewrites(ops, i, m - 1, UPDATE_NODE, id);
      NodeDocumentPersists(g, ops, i, m - 1, id);
      if ApplyFirst(g, ops, m - 1).Ok() {
        NodeDocumentKept(After(g, ops, m - 1), ops[m - 1], id);
      }
    }
  }

  lemma {:induction false} EdgeDocumentPersists(g: Graph, ops: seq<Operation>, i: nat, m: nat, id: nat)
    requires GraphOk(g) && i <= m <= |ops|
    requires id in After(g, ops, i).edges && id in After(g, ops, m).edges
    requires !Rewrites(ops, i, m, UPDATE_EDGE, id)
    ensures After(g, ops, m).edges[id] == After(g, ops, i).edges[id]
    decreases m
  {
    if i < m {
      hide ApplyOperation;
      AfterEvolves(g, ops, 0, i);
      AfterEvolves(g, ops, i, m - 1);
      DeadEdgeStays(g, ops, m - 1, m, id);
      assert !Rewrites(ops, i, m - 1, UPDATE_EDGE, id);
      EdgeDocumentPersists(g, ops, i, m - 1, id);
      if ApplyFirst(g, ops, m - 1).Ok() {
        EdgeDocumentKept(After(g, ops, m - 1), ops[m - 1], id);
      }
    }
  }

  /** An inserted node is never deleted by the frame that inserts it. */
  lemma {:induction false} InsertedNodeStays(g: Graph, ops: seq<Operation>, j: nat, m: nat)
    requires WellFormed(g, ops) && Clean(g, ops) && j < m <= |ops| && ops[j].opcode == INSERT_NODE
    ensures ops[j].id in After(g, ops, m).nodes
    decreases m
  {
    hide BsonReader.DocumentBytes, Storable;
    CleanStep(g, ops, m - 1);
    assert WellFormedAt(g, ops, j);
    if j < m - 1 {
      InsertedNodeStays(g, ops, j, m - 1);
      assert WellFormedAt(g, ops, m - 1);
    } else {
      CleanPrefix(g, ops, j, |ops|);
      NextIdsExact(g, ops, j);
    }
  }

  /** Right after its insert an edge has the endpoints of the operation. */
  lemma InsertedEdgeThere(g: Graph, ops: seq<Operation>, j: nat)
    requires WellFormed(g, ops) && Clean(g, ops) && j < |ops| && ops[j].opcode == INSERT_EDGE
    ensures ops[j].id in After(g, ops, j + 1).edges
    ensures After(g, ops, j + 1).edges[ops[j].id].source == ops[j].source
    ensures After(g, ops, j + 1).edges[ops[j].id].destination == ops[j].destination
  {
    hide BsonReader.DocumentBytes, Storable;
    CleanStep(g, ops, j);
    assert WellFormedAt(g, ops, j);
    CleanPrefix(g, ops, j, |ops|);
    NextIdsExact(g, ops, j);
    AfterEvolves(g, ops, 0, j);
  }

  /** The insert of an edge whose id is spent and one of whose endpoints is deleted. */
  predicate Blocked(h: Graph, op: Operation) {
    && op.opcode == INSERT_EDGE && op.id !in h.edges && op.id < h.nextEdge
    && ((op.source !in h.nodes && op.source < h.nextNode)
        || (op.destination !in h.nodes && op.destination < h.nextNode))
  }

  lemma BlockedIsRefused(h: Graph, op: Operation)
    requires Blocked(h, op)
    ensures ApplyOperation(h, op) == Applied(h, Some(Refused))
  {
  }

  /** Nothing that happens to a graph unblocks an operation. */
  lemma BlockedStays(h: Graph, h': Graph, op: Operation)
    requires GraphOk(h) && Evolves(h, h') && Blocked(h, op)
    ensures Blocked(h', op)
  {
  }

  /** An inserted edge is there later too, unless the frame deletes one of its endpoints. */
  lemma {:induction false} InsertedEdgeLater(g: Graph, ops: seq<Operation>, j: nat, m: nat)
    requires WellFormed(g, ops) && Clean(g, ops) && j < m <= |ops| && ops[j].opcode == INSERT_EDGE
    ensures ops[j].id in After(g, ops, m).edges || (Blocked(After(g, ops, m), ops[j]) && !Untouched(ops))
    decreases m
  {
    hide ApplyFirst, ApplyOperation, Untouched, Blocked;
    InsertedEdgeThere(g, ops, j);
    if j < m - 1 {
      InsertedEdgeLater(g, ops, j, m - 1);
      CleanStep(g, ops, m - 1);
      AfterEvolves(g, ops, m - 1, m);
      if ops[j].id in After(g, ops, m - 1).edges {
        AfterEvolves(g, ops, 0, j);
        AfterEvolves(g, ops, j + 1, m - 1);
        InsertedEdgeStep(g, After(g, ops, m - 1), ops, j, m - 1);
      } else {
        BlockedStays(After(g, ops, m - 1), After(g, ops, m), ops[j]);
      }
    }
  }

  /** The one operation that can take the edge away deletes one of its endpoints. */
  lemma InsertedEdgeStep(g: Graph, now: Graph, ops: seq<Operation>, j: nat, i: nat)
    requires WellFormed(g, ops) && GraphOk(now) && j < |ops| && i < |ops| && ops[j].opcode == INSERT_EDGE
    requires ops[j].id in now.edges && ApplyOperation(now, ops[i]).Ok()
    requires now.edges[ops[j].id].source == ops[j].source && now.edges[ops[j].id].destination == ops[j].destination
    ensures var g' := ApplyOperation(now, ops[i]).graph;
            ops[j].id in g'.edges || (Blocked(g', ops[j]) && !Untouched(ops))
  {
    hide BsonReader.DocumentBytes, Storable;
    assert WellFormedAt(g, ops, j) && WellFormedAt(g, ops, i);
    if ops[i].opcode == DELETE_NODE && ops[j].id !in ApplyOperation(now, ops[i]).graph.edges {
      assert Touches(ops[j], ops[i]);
    }
  }

  // ----- The state of a recovery -----

  /**
   * A recovering graph `h` against a state `g` of the uninterrupted commit, with the operations
   * before `j` already replayed: the same objects, and the same documents except under ids that the
   * rest of the replay still rewrites.
   */
  ghost predicate Agree(h: Graph, g: Graph, ops: seq<Operation>, j: nat)
    requires j <= |ops|
  {
    && h.nextNode == g.nextNode && h.nextEdge == g.nextEdge
    && h.nodes.Keys == g.nodes.Keys && h.edges.Keys == g.edges.Keys
    && (forall id :: id in g.nodes && !Rewrites(ops, j, |ops|, UPDATE_NODE, id) ==> h.nodes[id] == g.nodes[id])
    && (forall id :: id in g.edges ==>
          h.edges[id].source == g.edges[id].source && h.edges[id].destination == g.edges[id].destination)
    && (forall id :: id in g.edges && !Rewrites(ops, j, |ops|, UPDATE_EDGE, id) ==> h.edges[id].doc == g.edges[id].doc)
  }

  /** A crash forgets the progress of a replay: more ids count as still to be rewritten. */
  lemma AgreeAfterCrash(h: Graph, g: Graph, ops: seq<Operation>, j: nat)
    requires j <= |ops| && Agree(h, g, ops, j)
    ensures Agree(h, g, ops, 0)
  {
    forall opcode, id: nat | Rewrites(ops, j, |ops|, opcode, id) ensures Rewrites(ops, 0, |ops|, opcode, id) {
      var k :| j <= k < |ops| && ops[k].opcode == opcode && ops[k].id == id;
    }
  }

  lemma AgreeAtEnd(h: Graph, g: Graph, ops: seq<Operation>)
    requires Agree(h, g, ops, |ops|)
    ensures h == g
  {
    assert h.nodes == g.nodes;
    assert forall id :: id in g.edges ==> h.edges[id] == g.edges[id];
    assert h.edges == g.edges;
  }

  lemma AgreeSelf(g: Graph, ops: seq<Operation>)
    ensures Agree(g, g, ops, 0)
  {
  }

  /** Only operation `j` itself can rewrite an id from `j` on and not from `j + 1` on. */
  lemma RewritesStep(ops: seq<Operation>, j: nat, opcode: u32, id: nat)
    requires j < |ops|
    ensures Rewrites(ops, j, |ops|, opcode, id) <==>
            (ops[j].opcode == opcode && ops[j].id == id) || Rewrites(ops, j + 1, |ops|, opcode, id)
  {
    if Rewrites(ops, j, |ops|, opcode, id) {
      var k :| j <= k < |ops| && ops[k].opcode == opcode && ops[k].id == id;
    }
    if Rewrites(ops, j + 1, |ops|, opcode, id) {
      var k :| j + 1 <= k < |ops| && ops[k].opcode == opcode && ops[k].id == id;
    }
  }

  lemma RewritesSteps(ops: seq<Operation>, j: nat)
    requires j < |ops|
    ensures forall opcode, id: nat :: Rewrites(ops, j, |ops|, opcode, id) <==>
              (ops[j].opcode == opcode && ops[j].id == id) || Rewrites(ops, j + 1, |ops|, opcode, id)
  {
    forall opcode, id: nat
      ensures Rewrites(ops, j, |ops|, opcode, id) <==>
              (ops[j].opcode == opcode && ops[j].id == id) || Rewrites(ops, j + 1, |ops|, opcode, id)
    {
      RewritesStep(ops, j, opcode, id);
    }
  }

  lemma LockStepInsert(h: Graph, g: Graph, ops: seq<Operation>, j: nat)
    requires GraphOk(g) && j < |ops| && Agree(h, g, ops, j)
    requires ApplyOperation(g, ops[j]).Ok() && (ops[j].opcode == INSERT_NODE || ops[j].opcode == INSERT_EDGE)
    ensures ApplyOperation(h, ops[j]).Ok()
    ensures Agree(ApplyOperation(h, ops[j]).graph, ApplyOperation(g, ops[j]).graph, ops, j + 1)
  {
    hide BsonReader.DocumentBytes, Storable, Rewrites;
    RewritesSteps(ops, j);
  }

  lemma LockStepUpdate(h: Graph, g: Graph, ops: seq<Operation>, j: nat)
    requires GraphOk(g) && j < |ops| && Agree(h, g, ops, j)
    requires ApplyOperation(g, ops[j]).Ok() && (ops[j].opcode == UPDATE_NODE || ops[j].opcode == UPDATE_EDGE)
    ensures ApplyOperation(h, ops[j]).Ok()
    ensures Agree(ApplyOperation(h, ops[j]).graph, ApplyOperation(g, ops[j]).graph, ops, j + 1)
  {
    hide BsonReader.DocumentBytes, Storable, Rewrites;
    RewritesSteps(ops, j);
  }

  lemma LockStepDeleteEdge(h: Graph, g: Graph, ops: seq<Operation>, j: nat)
    requires GraphOk(g) && j < |ops| && Agree(h, g, ops, j)
    requires ApplyOperation(g, ops[j]).Ok() && ops[j].opcode == DELETE_EDGE
    ensures ApplyOperation(h, ops[j]).Ok()
    ensures Agree(ApplyOperation(h, ops[j]).graph, ApplyOperation(g, ops[j]).graph, ops, j + 1)
  {
    hide BsonReader.DocumentBytes, Storable, Rewrites;
    RewritesSteps(ops, j);
  }

  /** Graphs with the same edges between the same nodes have the same nodes with edges. */
  lemma SameIncidence(h: Graph, g: Graph, ops: seq<Operation>, j: nat, node: nat)
    requires j <= |ops| && Agree(h, g, ops, j)
    ensures HasIncident(h, node) <==> HasIncident(g, node)
    ensures WithoutIncident(h.edges, node).Keys == WithoutIncident(g.edges, node).Keys
  {
    hide Rewrites;
  }

  lemma LockStepDeleteNode(h: Graph, g: Graph, ops: seq<Operation>, j: nat)
    requires GraphOk(g) && j < |ops| && Agree(h, g, ops, j)
    requires ApplyOperation(g, ops[j]).Ok() && ops[j].opcode == DELETE_NODE
    ensures ApplyOperation(h, ops[j]).Ok()
    ensures Agree(ApplyOperation(h, ops[j]).graph, ApplyOperation(g, ops[j]).graph, ops, j + 1)
  {
    hide BsonReader.DocumentBytes, Storable, Rewrites, HasIncident;
    RewritesSteps(ops, j);
    SameIncidence(h, g, ops, j, ops[j].id);
  }

  lemma KnownOpcode(g: Graph, op: Operation)
    requires ApplyOperation(g, op).Ok()
    ensures op.opcode <= DELETE_EDGE
  {
  }

  /** A replay in step with the commit: the operation does to both what the commit saw it do. */
  lemma LockStep(h: Graph, g: Graph, ops: seq<Operation>, j: nat)
    requires GraphOk(g) && j < |ops| && Agree(h, g, ops, j)
    requires ApplyOperation(g, ops[j]).Ok()
    ensures ApplyOperation(h, ops[j]).Ok()
    ensures Agree(ApplyOperation(h, ops[j]).graph, ApplyOperation(g, ops[j]).graph, ops, j + 1)
  {
    hide ApplyOperation, Agree;
    KnownOpcode(g, ops[j]);
    if ops[j].opcode == INSERT_NODE || ops[j].opcode == INSERT_EDGE {
      LockStepInsert(h, g, ops, j);
    } else if ops[j].opcode == UPDATE_NODE || ops[j].opcode == UPDATE_EDGE {
      LockStepUpdate(h, g, ops, j);
    } else if ops[j].opcode == DELETE_NODE {
      LockStepDeleteNode(h, g, ops, j);
    } else {
      LockStepDeleteEdge(h, g, ops, j);
    }
  }

  /** An object named by an update or a deletion that the commit has done is dead, or was updated. */
  lemma UpdateDone(g: Graph, ops: seq<Operation>, j: nat, m: nat)
    requires WellFormed(g, ops) && Clean(g, ops) && j < m <= |ops|
    ensures var op, final := ops[j], After(g, ops, m);
            && (op.opcode == UPDATE_NODE && op.id in final.nodes ==>
                  op.payload.Some? && Storable(BsonReader.DocumentBytes(op.payload.value))
                  && (!Rewrites(ops, j + 1, |ops|, UPDATE_NODE, op.id) ==>
                        final.nodes[op.id] == BsonReader.DocumentBytes(op.payload.value)))
            && (op.opcode == UPDATE_EDGE && op.id in final.edges ==>
                  op.payload.Some? && Storable(BsonReader.DocumentBytes(op.payload.value))
                  && (!Rewrites(ops, j + 1, |ops|, UPDATE_EDGE, op.id) ==>
                        final.edges[op.id].doc == BsonReader.DocumentBytes(op.payload.value)))
  {
    hide BsonReader.DocumentBytes, Storable;
    var op := ops[j];
    CleanStep(g, ops, j);
    assert WellFormedAt(g, ops, j);
    AfterEvolves(g, ops, 0, j);
    AfterEvolves(g, ops, 0, j + 1);
    AfterEvolves(g, ops, j, m);
    if op.opcode == UPDATE_NODE && op.id in After(g, ops, m).nodes {
      DeadNodeStays(g, ops, j, m, op.id);
      if !Rewrites(ops, j + 1, |ops|, UPDATE_NODE, op.id) {
        assert !Rewrites(ops, j + 1, m, UPDATE_NODE, op.id);
        NodeDocumentPersists(g, ops, j + 1, m, op.id);
      }
    } else if op.opcode == UPDATE_EDGE && op.id in After(g, ops, m).edges {
      DeadEdgeStays(g, ops, j, m, op.id);
      if !Rewrites(ops, j + 1, |ops|, UPDATE_EDGE, op.id) {
        assert !Rewrites(ops, j + 1, m, UPDATE_EDGE, op.id);
        EdgeDocumentPersists(g, ops, j + 1, m, op.id);
      }
    }
  }

  lemma DeleteDone(g: Graph, ops: seq<Operation>, j: nat, m: nat)
    requires WellFormed(g, ops) && Clean(g, ops) && j < m <= |ops|
    ensures ops[j].opcode == DELETE_NODE ==> ops[j].id !in After(g, ops, m).nodes
    ensures ops[j].opcode == DELETE_EDGE ==> ops[j].id !in After(g, ops, m).edges
  {
    CleanStep(g, ops, j);
    assert WellFormedAt(g, ops, j);
    AfterEvolves(g, ops, 0, j + 1);
    if ops[j].opcode == DELETE_NODE {
      DeadNodeStays(g, ops, j + 1, m, ops[j].id);
    } else if ops[j].opcode == DELETE_EDGE {
      DeadEdgeStays(g, ops, j + 1, m, ops[j].id);
    }
  }

  /**
   * A replay behind the crash point: what the commit had done is skipped or done again, unless it
   * is the insert of an edge at a node deleted since.
   */
  lemma Absorb(h: Graph, g: Graph, ops: seq<Operation>, j: nat, m: nat)
    requires WellFormed(g, ops) && Clean(g, ops) && j < m <= |ops|
    requires Agree(h, After(g, ops, m), ops, j)
    ensures Blocked(h, ops[j]) ==> !Untouched(ops)
    ensures !Blocked(h, ops[j]) ==>
              ApplyOperation(h, ops[j]).Ok() && Agree(ApplyOperation(h, ops[j]).graph, After(g, ops, m), ops, j + 1)
  {
    hide BsonReader.DocumentBytes, Storable, Rewrites, ApplyFirst, Untouched;
    RewritesSteps(ops, j);
    assert WellFormedAt(g, ops, j);
    var op := ops[j];
    if op.opcode == INSERT_NODE {
      InsertedNodeStays(g, ops, j, m);
    } else if op.opcode == INSERT_EDGE {
      InsertedEdgeLater(g, ops, j, m);
    } else if op.opcode == UPDATE_NODE || op.opcode == UPDATE_EDGE {
      UpdateDone(g, ops, j, m);
    } else {
      DeleteDone(g, ops, j, m);
    }
  }

  // ----- Where a frame ends -----

  /** The frame is applied up to operation `k`, which the store refuses. */
  ghost predicate RefusedAt(g: Graph, ops: seq<Operation>, k: nat) {
    && k < |ops| && ApplyFirst(g, ops, k).Ok()
    && ApplyOperation(After(g, ops, k), ops[k]) == Applied(After(g, ops, k), Some(Refused))
  }

  /** Applying the frame ends before operation `k`: refused there, or at the end. */
  ghost predicate EndsAt(g: Graph, ops: seq<Operation>, k: nat) {
    RefusedAt(g, ops, k) || (k == |ops| && Clean(g, ops))
  }

  lemma {:induction false} ApplyPrefix(g: Graph, ops: seq<Operation>, k: nat, n: nat)
    requires n <= k <= |ops|
    ensures ApplyFirst(g, ops[..k], n) == ApplyFirst(g, ops, n)
  {
    if n > 0 {
      hide ApplyOperation;
      ApplyPrefix(g, ops, k, n - 1);
    }
  }

  lemma {:induction false} CountOfPrefix(ops: seq<Operation>, k: nat, n: nat, opcode: u32)
    requires n <= k <= |ops|
    ensures Count(ops[..k], n, opcode) == Count(ops, n, opcode)
  {
    if n > 0 {
      CountOfPrefix(ops, k, n - 1, opcode);
    }
  }

  lemma PrefixWellFormed(g: Graph, ops: seq<Operation>, k: nat)
    requires WellFormed(g, ops) && k <= |ops|
    ensures WellFormed(g, ops[..k])
  {
    forall i | 0 <= i < k ensures WellFormedAt(g, ops[..k], i) {
      assert WellFormedAt(g, ops, i);
      CountOfPrefix(ops, k, i, INSERT_NODE);
      CountOfPrefix(ops, k, i, INSERT_EDGE);
    }
  }

  /** A well-formed frame that does not apply cleanly is refused at one of its operations. */
  lemma {:induction false} FirstRefusal(g: Graph, ops: seq<Operation>, n: nat) returns (k: nat)
    requires WellFormed(g, ops) && n <= |ops| && !ApplyFirst(g, ops, n).Ok()
    ensures k < n && RefusedAt(g, ops, k)
  {
    hide WellFormed, ApplyOperation;
    if ApplyFirst(g, ops, n - 1).Ok() {
      k := n - 1;
      IdsNeverMismatch(g, ops, n);
      RefusalChangesNothing(After(g, ops, k), ops[k]);
    } else {
      k := FirstRefusal(g, ops, n - 1);
    }
  }

  lemma RefusalChangesNothing(g: Graph, op: Operation)
    ensures ApplyOperation(g, op).failure == Some(Refused) ==> ApplyOperation(g, op).graph == g
  {
    hide BsonReader.DocumentBytes, Storable;
  }

  /** Every frame ends somewhere, and its outcome is the graph there. */
  lemma FrameEnds(g: Graph, ops: seq<Operation>) returns (k: nat)
    requires WellFormed(g, ops)
    ensures k <= |ops| && EndsAt(g, ops, k)
  {
    hide WellFormed, ApplyOperation;
    if Clean(g, ops) {
      k := |ops|;
    } else {
      k := FirstRefusal(g, ops, |ops|);
    }
  }

  lemma Outcome(g: Graph, ops: seq<Operation>, k: nat)
    requires EndsAt(g, ops, k)
    ensures k <= |ops| && (Clean(g, ops) <==> k == |ops|)
    ensures ApplyAll(g, ops) == Applied(After(g, ops, k), if k == |ops| then None else Some(Refused))
  {
    hide ApplyOperation;
    if k < |ops| {
      FailureSticks(g, ops, k + 1, |ops|);
    }
  }

  /** What the proofs use of a frame cut where it ends. */
  lemma CutFrame(g: Graph, ops: seq<Operation>, k: nat)
    requires WellFormed(g, ops) && EndsAt(g, ops, k)
    ensures k <= |ops| && WellFormed(g, ops[..k]) && Clean(g, ops[..k])
    ensures After(g, ops[..k], k) == After(g, ops, k)
    ensures GraphOk(g) && GraphOk(After(g, ops, k))
  {
    hide ApplyOperation;
    PrefixWellFormed(g, ops, k);
    ApplyPrefix(g, ops, k, k);
    AfterEvolves(g, ops, 0, k);
  }

  // ----- Replays -----

  function Max(a: nat, b: nat): nat { if a < b then b else a }

  /** One of the operations from `n` on is blocked: no replay gets past it. */
  ghost predicate Doomed(h: Graph, ops: seq<Operation>, n: nat) {
    exists i :: n <= i < |ops| && Blocked(h, ops[i])
  }

  /**
   * A replay of the frame has `n` operations behind it and is at graph `h`: either it agrees with
   * some state of the uninterrupted commit, or it cannot complete.
   */
  ghost predicate Replaying(h: Graph, g: Graph, ops: seq<Operation>, k: nat, n: nat)
    requires k <= |ops|
  {
    && GraphOk(h) && n <= |ops|
    && ((exists m: nat :: n <= m <= k && Agree(h, After(g, ops[..k], m), ops[..k], n))
        || (Doomed(h, ops[..k], n) && !Untouched(ops[..k])))
  }

  lemma ReplayingWith(h: Graph, g: Graph, ops: seq<Operation>, k: nat, n: nat, m: nat)
    requires n <= m <= k <= |ops| && GraphOk(h) && Agree(h, After(g, ops[..k], m), ops[..k], n)
    ensures Replaying(h, g, ops, k, n)
  {
    hide Agree, After;
  }

  /** One step of a replay that agrees with the commit, behind it or in step with it. */
  lemma ReplayStep(h: Graph, g: Graph, ops: seq<Operation>, j: nat, m: nat)
    requires WellFormed(g, ops) && Clean(g, ops) && j < |ops| && j <= m <= |ops|
    requires Agree(h, After(g, ops, m), ops, j)
    ensures Blocked(h, ops[j]) ==> !Untouched(ops)
    ensures !Blocked(h, ops[j]) ==>
              ApplyOperation(h, ops[j]).Ok()
              && Agree(ApplyOperation(h, ops[j]).graph, After(g, ops, Max(m, j + 1)), ops, j + 1)
  {
    hide ApplyOperation, Agree, Untouched, Blocked, ApplyFirst, GraphOk;
    if j < m {
      Absorb(h, g, ops, j, m);
    } else {
      AfterEvolves(g, ops, 0, j);
      CleanStep(g, ops, j);
      LockStep(h, After(g, ops, j), ops, j);
      if Blocked(h, ops[j]) {
        BlockedIsRefused(h, ops[j]);
      }
    }
  }

  /** A doomed replay stays doomed, whatever its next operation does. */
  lemma DoomedStep(h: Graph, ops: seq<Operation>, op: Operation, n: nat)
    requires GraphOk(h) && Doomed(h, ops, n) && (n < |ops| ==> op == ops[n])
    ensures var r := ApplyOperation(h, op);
            Evolves(h, r.graph) && Doomed(r.graph, ops, if r.Ok() then n + 1 else 0)
  {
    hide ApplyOperation, Blocked, Evolves;
    ApplyEvolves(h, op);
    var i :| n <= i < |ops| && Blocked(h, ops[i]);
    BlockedIsRefused(h, ops[i]);
    BlockedStays(h, ApplyOperation(h, op).graph, ops[i]);
  }

  /** One step of any replay. Where no insert is blocked it goes as far as the commit, and ends alike. */
  lemma ReplayingStep(h: Graph, g: Graph, ops: seq<Operation>, k: nat, n: nat)
    requires WellFormed(g, ops) && EndsAt(g, ops, k) && k <= |ops| && n < |ops| && Replaying(h, g, ops, k, n)
    ensures var r := ApplyOperation(h, ops[n]);
            && Replaying(r.graph, g, ops, k, if r.Ok() then n + 1 else 0)
            && (Untouched(ops[..k]) && n < k ==> r.Ok())
            && (Untouched(ops[..k]) && k <= n ==> r == Applied(After(g, ops, k), Some(Refused)))
  {
    hide ApplyOperation, Agree, Untouched, Blocked, WellFormed, ApplyFirst, Doomed, EndsAt, GraphOk, Evolves;
    var p, r := ops[..k], ApplyOperation(h, ops[n]);
    CutFrame(g, ops, k);
    ApplyEvolves(h, ops[n]);
    EvolvedOk(h, r.graph);
    if Doomed(h, p, n) && !Untouched(p) {
      DoomedStep(h, p, ops[n], n);
    } else {
      var m: nat :| n <= m <= k && Agree(h, After(g, p, m), p, n);
      if n < k {
        ReplayStep(h, g, p, n, m);
        if Blocked(h, ops[n]) {
          BlockedIsRefused(h, ops[n]);
          DoomedAt(h, p, n);
        } else {
          ReplayingWith(r.graph, g, ops, k, n + 1, Max(m, n + 1));
        }
      } else {
        AgreeAtEnd(h, After(g, p, k), p);
        RefusedThere(g, ops, k);
        AgreeSelf(h, p);
        ReplayingWith(h, g, ops, k, 0, k);
      }
    }
  }

  lemma EvolvedOk(h: Graph, h': Graph)
    requires Evolves(h, h')
    ensures GraphOk(h')
  {
  }

  lemma DoomedAt(h: Graph, ops: seq<Operation>, n: nat)
    requires n < |ops| && Blocked(h, ops[n])
    ensures Doomed(h, ops, 0)
  {
  }

  lemma RefusedThere(g: Graph, ops: seq<Operation>, k: nat)
    requires EndsAt(g, ops, k) && k < |ops|
    ensures ApplyOperation(After(g, ops, k), ops[k]) == Applied(After(g, ops, k), Some(Refused))
  {
  }

  /** A crash forgets the progress of a replay. */
  lemma ReplayingCrash(h: Graph, g: Graph, ops: seq<Operation>, k: nat, n: nat)
    requires k <= |ops| && Replaying(h, g, ops, k, n)
    ensures Replaying(h, g, ops, k, 0)
  {
    hide Agree, After, Untouched, Blocked;
    if !(Doomed(h, ops[..k], n) && !Untouched(ops[..k])) {
      var m: nat :| n <= m <= k && Agree(h, After(g, ops[..k], m), ops[..k], n);
      AgreeAfterCrash(h, After(g, ops[..k], m), ops[..k], n);
    }
  }

  /** A replay only completes in the graph of a commit that does. */
  lemma ReplayingEnds(h: Graph, g: Graph, ops: seq<Operation>, k: nat)
    requires WellFormed(g, ops) && EndsAt(g, ops, k) && k <= |ops| && Replaying(h, g, ops, k, |ops|)
    ensures ApplyAll(g, ops) == Applied(h, None)
  {
    hide Agree, ApplyFirst, Untouched, WellFormed;
    var m: nat :| |ops| <= m <= k && Agree(h, After(g, ops[..k], m), ops[..k], |ops|);
    assert ops[..k] == ops;
    AgreeAtEnd(h, After(g, ops, |ops|), ops);
    Outcome(g, ops, k);
  }

  lemma ReplayingStart(g: Graph, ops: seq<Operation>, k: nat)
    requires k <= |ops| && GraphOk(g)
    ensures Replaying(g, g, ops, k, 0)
  {
    hide Agree, Untouched, Doomed;
    AgreeSelf(g, ops[..k]);
    assert After(g, ops[..k], 0) == g;
  }

  /** Replaying the first `n` operations. */
  lemma {:induction false} ReplayFirst(h: Graph, g: Graph, ops: seq<Operation>, k: nat, n: nat)
    requires WellFormed(g, ops) && EndsAt(g, ops, k) && k <= |ops| && n <= |ops| && Replaying(h, g, ops, k, 0)
    ensures var r := ApplyFirst(h, ops, n);
            && Replaying(r.graph, g, ops, k, if r.Ok() then n else 0)
            && (Untouched(ops[..k]) && n <= k ==> r.Ok())
            && (Untouched(ops[..k]) && k < n ==> r == Applied(After(g, ops, k), Some(Refused)))
    decreases n
  {
    hide ApplyOperation, Replaying, Untouched, WellFormed, EndsAt, After;
    if n > 0 {
      ReplayFirst(h, g, ops, k, n - 1);
      if ApplyFirst(h, ops, n - 1).Ok() {
        ReplayingStep(ApplyFirst(h, ops, n - 1).graph, g, ops, k, n - 1);
      }
    }
  }

  /**
   * What a commit interrupted after `crashes[0]` operations, the replay after it interrupted after
   * `crashes[1]`, and so on leave behind. A commit or replay that fails before that point leaves
   * the graph at its failure, and the next one starts there.
   */
  function Interrupted(g: Graph, ops: seq<Operation>, crashes: seq<nat>): Graph
    decreases |crashes|
  {
    if crashes == [] then g
    else Interrupted(ApplyFirst(g, ops, if crashes[0] < |ops| then crashes[0] else |ops|).graph, ops, crashes[1..])
  }

  /** One complete replay of what the crashes left. */
  function Recover(g: Graph, ops: seq<Operation>, crashes: seq<nat>): Applied {
    ApplyAll(Interrupted(g, ops, crashes), ops)
  }

  /** One more crash interrupts one more replay. */
  lemma {:induction false} InterruptedAgain(g: Graph, ops: seq<Operation>, crashes: seq<nat>, n: nat)
    requires n <= |ops|
    ensures Interrupted(g, ops, crashes + [n]) == ApplyFirst(Interrupted(g, ops, crashes), ops, n).graph
    decreases |crashes|
  {
    hide ApplyFirst;
    if crashes == [] {
      assert [] + [n] == [n] && [n][1..] == [];
    } else {
      var first := if crashes[0] < |ops| then crashes[0] else |ops|;
      InterruptedAgain(ApplyFirst(g, ops, first).graph, ops, crashes[1..], n);
      assert (crashes + [n])[1..] == crashes[1..] + [n];
    }
  }

  lemma {:induction false} InterruptedReplaying(h: Graph, g: Graph, ops: seq<Operation>, k: nat, crashes: seq<nat>)
    requires WellFormed(g, ops) && EndsAt(g, ops, k) && k <= |ops| && Replaying(h, g, ops, k, 0)
    ensures Replaying(Interrupted(h, ops, crashes), g, ops, k, 0)
    decreases |crashes|
  {
    hide ApplyFirst, Replaying, WellFormed, EndsAt, Untouched;
    if crashes != [] {
      var n := if crashes[0] < |ops| then crashes[0] else |ops|;
      var r := ApplyFirst(h, ops, n);
      ReplayFirst(h, g, ops, k, n);
      ReplayingCrash(r.graph, g, ops, k, if r.Ok() then n else 0);
      InterruptedReplaying(r.graph, g, ops, k, crashes[1..]);
    }
  }

  // ----- What recovery does -----

  /**
   * Recovery is never wrong: for any frame a commit builds and any crashes, a replay that completes
   * ends in the graph of the uninterrupted commit, which was bound to succeed.
   */
  lemma RecoveryNeverWrong(g: Graph, ops: seq<Operation>, crashes: seq<nat>)
    requires WellFormed(g, ops)
    ensures Recover(g, ops, crashes).Ok() ==> Recover(g, ops, crashes) == ApplyAll(g, ops)
  {
    hide ApplyFirst, Replaying, EndsAt, Interrupted, Untouched;
    var k := FrameEnds(g, ops);
    ReplayingStart(g, ops, k);
    InterruptedReplaying(g, g, ops, k, crashes);
    ReplayFirst(Interrupted(g, ops, crashes), g, ops, k, |ops|);
    if Recover(g, ops, crashes).Ok() {
      ReplayingEnds(Recover(g, ops, crashes).graph, g, ops, k);
    }
  }

  /** None of the operations a commit applies is the insert of an edge at a node that another deletes. */
  ghost predicate Undisturbed(g: Graph, ops: seq<Operation>) {
    forall k: nat :: EndsAt(g, ops, k) && k <= |ops| ==> Untouched(ops[..k])
  }

  lemma UntouchedIsUndisturbed(g: Graph, ops: seq<Operation>)
    requires Untouched(ops)
    ensures Undisturbed(g, ops)
  {
    hide EndsAt;
  }

  /** A complete replay, from wherever crashes and failures have left the graph. */
  lemma ReplayOutcome(h: Graph, g: Graph, ops: seq<Operation>, k: nat)
    requires WellFormed(g, ops) && Undisturbed(g, ops) && EndsAt(g, ops, k) && k <= |ops| && Replaying(h, g, ops, k, 0)
    ensures ApplyAll(h, ops) == ApplyAll(g, ops)
  {
    hide ApplyFirst, Replaying, EndsAt, Untouched, WellFormed;
    ReplayFirst(h, g, ops, k, |ops|);
    Outcome(g, ops, k);
    if k == |ops| {
      ReplayingEnds(ApplyAll(h, ops).graph, g, ops, k);
    }
  }

  /**
   * Crashes never change the outcome of a commit, success or failure: recovery ends in its graph
   * and with its verdict, unless an edge is inserted at a node deleted, both before any refusal.
   */
  lemma CrashesChangeNothing(g: Graph, ops: seq<Operation>, crashes: seq<nat>)
    requires WellFormed(g, ops) && Undisturbed(g, ops)
    ensures Recover(g, ops, crashes) == ApplyAll(g, ops)
  {
    hide ApplyFirst, Replaying, EndsAt, Interrupted, Undisturbed, WellFormed, GraphOk;
    var k := FrameEnds(g, ops);
    CutFrame(g, ops, k);
    ReplayingStart(g, ops, k);
    InterruptedReplaying(g, g, ops, k, crashes);
    ReplayOutcome(Interrupted(g, ops, crashes), g, ops, k);
  }

  /** Recovery after any crashes ends in the state of the uninterrupted commit. */
  lemma RecoveryIsCommit(g: Graph, ops: seq<Operation>, crashes: seq<nat>)
    requires WellFormed(g, ops) && Clean(g, ops) && Untouched(ops)
    ensures Recover(g, ops, crashes) == ApplyAll(g, ops)
  {
    hide Recover, WellFormed, Untouched, ApplyFirst;
    UntouchedIsUndisturbed(g, ops);
    CrashesChangeNothing(g, ops, crashes);
  }

  /**
   * A frame that fails keeps failing: whatever the crashes, commit and every recovery stop at the
   * same refused operation in the same graph.
   */
  lemma FailingFrameStaysFailing(g: Graph, ops: seq<Operation>, k: nat, crashes: seq<nat>)
    requires WellFormed(g, ops) && RefusedAt(g, ops, k) && Untouched(ops[..k])
    ensures Recover(g, ops, crashes) == ApplyAll(g, ops) == Applied(After(g, ops, k), Some(Refused))
  {
    hide ApplyFirst, Replaying, Interrupted, Untouched, WellFormed;
    CutFrame(g, ops, k);
    ReplayingStart(g, ops, k);
    InterruptedReplaying(g, g, ops, k, crashes);
    ReplayFirst(Interrupted(g, ops, crashes), g, ops, k, |ops|);
    Outcome(g, ops, k);
  }

  /** A blocked insert fails every replay. */
  lemma DoomedFails(h: Graph, ops: seq<Operation>)
    requires GraphOk(h) && Doomed(h, ops, 0)
    ensures !ApplyAll(h, ops).Ok()
  {
    hide ApplyOperation, Blocked;
    var i :| 0 <= i < |ops| && Blocked(h, ops[i]);
    AfterEvolves(h, ops, 0, i);
    BlockedStays(h, After(h, ops, i), ops[i]);
    BlockedIsRefused(After(h, ops, i), ops[i]);
    assert !ApplyFirst(h, ops, i + 1).Ok();
    FailureSticks(h, ops, i + 1, |ops|);
  }

  /**
   * An edge inserted at a node that the frame deletes cannot be inserted again afterwards: no
   * replay of the frame ever completes, whatever has happened to the graph in between.
   */
  lemma TouchedReplayFails(g: Graph, ops: seq<Operation>, i: nat, j: nat, h: Graph)
    requires WellFormed(g, ops) && Clean(g, ops)
    requires i < |ops| && j < |ops| && Touches(ops[i], ops[j])
    requires Evolves(After(g, ops, |ops|), h)
    ensures !ApplyAll(h, ops).Ok()
  {
    hide ApplyFirst, ApplyOperation;
    var final := After(g, ops, |ops|);
    AfterEvolves(g, ops, 0, |ops|);
    assert WellFormedAt(g, ops, i) && WellFormedAt(g, ops, j);
    DeleteDone(g, ops, j, |ops|);
    InsertedEdgeThere(g, ops, i);
    AfterEvolves(g, ops, i + 1, |ops|);
    assert Blocked(final, ops[i]);
    BlockedStays(final, h, ops[i]);
    DoomedAt(h, ops, i);
    DoomedFails(h, ops);
  }

  /**
   * A frame that applies cleanly is recoverable from every schedule of crashes exactly when it
   * inserts no edge at a node it deletes.
   */
  lemma RecoverableIff(g: Graph, ops: seq<Operation>)
    requires WellFormed(g, ops) && Clean(g, ops)
    ensures (forall crashes :: Recover(g, ops, crashes) == ApplyAll(g, ops)) <==> Untouched(ops)
  {
    hide Recover, ApplyFirst;
    if Untouched(ops) {
      forall crashes ensures Recover(g, ops, crashes) == ApplyAll(g, ops) {
        RecoveryIsCommit(g, ops, crashes);
      }
    } else {
      var i, j :| 0 <= i < |ops| && 0 <= j < |ops| && Touches(ops[i], ops[j]);
      AfterEvolves(g, ops, |ops|, |ops|);
      TouchedReplayFails(g, ops, i, j, After(g, ops, |ops|));
      CrashBeforeClear(g, ops);
    }
  }

  /** A crash right before the log is cleared leaves the committed graph. */
  lemma CrashBeforeClear(g: Graph, ops: seq<Operation>)
    ensures Recover(g, ops, [|ops|]) == ApplyAll(After(g, ops, |ops|), ops)
  {
    hide ApplyFirst;
    assert [|ops|][1..] == [];
    assert Interrupted(After(g, ops, |ops|), ops, []) == After(g, ops, |ops|);
  }

  // ----- Frames left in the log -----

  /** The first `n` operations succeed, each of them on the graph itself. */
  ghost predicate AllSucceed(g: Graph, ops: seq<Operation>, n: nat)
    requires n <= |ops|
  {
    forall j :: 0 <= j < n ==> ApplyOperation(g, ops[j]).Ok()
  }

  /** Up to the first refused operation, each operation leaves the graph alone. */
  ghost predicate Harmless(g: Graph, ops: seq<Operation>) {
    forall i: nat :: i < |ops| && AllSucceed(g, ops, i) ==> ApplyOperation(g, ops[i]).graph == g
  }

  lemma {:induction false} HarmlessReplay(g: Graph, ops: seq<Operation>, n: nat)
    requires n <= |ops| && Harmless(g, ops)
    ensures ApplyFirst(g, ops, n).graph == g && (ApplyFirst(g, ops, n).Ok() ==> AllSucceed(g, ops, n))
  {
    if n > 0 {
      hide ApplyOperation;
      HarmlessReplay(g, ops, n - 1);
    }
  }

  /** The first operation that changes the graph is reached by a replay. */
  lemma {:induction false} HarmfulReplay(g: Graph, ops: seq<Operation>, i: nat)
    requires i < |ops| && AllSucceed(g, ops, i)
    requires forall j :: 0 <= j < i ==> ApplyOperation(g, ops[j]).graph == g
    ensures ApplyFirst(g, ops, i) == Applied(g, None)
  {
    if i > 0 {
      hide ApplyOperation;
      HarmfulReplay(g, ops, i - 1);
    }
  }

  lemma {:induction false} FirstHarm(g: Graph, ops: seq<Operation>, i: nat) returns (k: nat)
    requires i < |ops| && AllSucceed(g, ops, i) && ApplyOperation(g, ops[i]).graph != g
    ensures k <= i && AllSucceed(g, ops, k) && ApplyOperation(g, ops[k]).graph != g
    ensures forall j :: 0 <= j < k ==> ApplyOperation(g, ops[j]).graph == g
  {
    hide ApplyOperation;
    if j :| 0 <= j < i && ApplyOperation(g, ops[j]).graph != g {
      k := FirstHarm(g, ops, j);
    } else {
      k := i;
    }
  }

  /** A frame in the log is harmless to a graph exactly when no replay, interrupted or not, changes it. */
  lemma HarmlessIff(g: Graph, ops: seq<Operation>)
    ensures (forall crashes :: Interrupted(g, ops, crashes) == g) <==> Harmless(g, ops)
  {
    hide ApplyOperation, ApplyFirst, AllSucceed;
    if Harmless(g, ops) {
      forall crashes ensures Interrupted(g, ops, crashes) == g {
        HarmlessInterrupted(g, ops, crashes);
      }
    } else {
      var i: nat :| i < |ops| && AllSucceed(g, ops, i) && ApplyOperation(g, ops[i]).graph != g;
      var k := FirstHarm(g, ops, i);
      HarmfulReplay(g, ops, k);
      HarmfulStep(g, ops, k);
      InterruptedAgain(g, ops, [], k + 1);
    }
  }

  lemma HarmfulStep(g: Graph, ops: seq<Operation>, k: nat)
    requires k < |ops| && ApplyFirst(g, ops, k) == Applied(g, None)
    ensures ApplyFirst(g, ops, k + 1) == ApplyOperation(g, ops[k])
    ensures Interrupted(g, ops, []) == g
  {
  }

  lemma {:induction false} HarmlessInterrupted(g: Graph, ops: seq<Operation>, crashes: seq<nat>)
    requires Harmless(g, ops)
    ensures Interrupted(g, ops, crashes) == g
    decreases |crashes|
  {
    hide ApplyFirst, Harmless;
    if crashes != [] {
      HarmlessReplay(g, ops, if crashes[0] < |ops| then crashes[0] else |ops|);
      HarmlessInterrupted(g, ops, crashes[1..]);
    }
  }

  const EMPTY_HANDLE: seq<byte> := []

  /**
   * Such a frame exists: an edge inserted between two nodes, one of which is then deleted with its
   * edges. Once it is applied, no replay of it completes, whatever has happened to the graph.
   */
  lemma RecoveryCanFail() returns (g: Graph, ops: seq<Operation>)
    ensures var doc := BsonReader.DocumentBytes(EMPTY_HANDLE); g == Graph(map[0 := doc, 1 := doc], map[], 2, 0)
    ensures ops == [Operation(INSERT_EDGE, 0, 0, 1, false, Some(EMPTY_HANDLE)),
                    Operation(DELETE_NODE, 0, 0, 0, true, None)]
    ensures WellFormed(g, ops) && Clean(g, ops) && !Recover(g, ops, [|ops|]).Ok()
    ensures forall h :: Evolves(ApplyAll(g, ops).graph, h) ==> !ApplyAll(h, ops).Ok()
  {
    hide Recover;
    var doc := BsonReader.DocumentBytes(EMPTY_HANDLE);
    g := Graph(map[0 := doc, 1 := doc], map[], 2, 0);
    var insert := Operation(INSERT_EDGE, 0, 0, 1, false, Some(EMPTY_HANDLE));
    var delete := Operation(DELETE_NODE, 0, 0, 0, true, None);
    ops := [insert, delete];
    assert WellFormedAt(g, ops, 0) && WellFormedAt(g, ops, 1);
    assert Storable(doc);
    assert ApplyFirst(g, ops, 0) == Applied(g, None);
    assert ApplyFirst(g, ops, 1).Ok() && 0 in ApplyFirst(g, ops, 1).graph.nodes;
    assert ApplyFirst(g, ops, 2).Ok();
    assert Touches(ops[0], ops[1]);
    forall h | Evolves(ApplyAll(g, ops).graph, h) ensures !ApplyAll(h, ops).Ok() {
      TouchedReplayFails(g, ops, 0, 1, h);
    }
    AfterEvolves(g, ops, |ops|, |ops|);
    CrashBeforeClear(g, ops);
  }
}
