/** Concrete transactions on which the code does not do what one would expect of it. */
module Witnesses {
  import opened Bytes
  import opened PropertyGraph
  import opened RedoLog
  import opened Recovery
  import opened CrashMachine
  import opened Matching
  import opened Execution
  import opened Transaction
  import BsonFormat
  import BsonReader

  function InsertNodeCall(payload: seq<byte>): Call { Insert(NODE, 0, 0, payload) }

  // ----- A transaction that no recovery completes -----

  const ANY: Filter := Filter(None, None, [])

  const FIRST: Pattern := Pattern(false, Filter(Some(0), None, []), ANY, ANY, NODE, SOURCE)

  /** MATCH (n {id: 0}) DETACH DELETE n */
  const DETACH_DELETE_FIRST: Call := Delete(FIRST, RIGHT, true)

  /** MATCH (n {id: 0}) DELETE n */
  const PLAIN_DELETE_FIRST: Call := Delete(FIRST, RIGHT, false)

  /** An empty property filter and no label let every document pass. */
  lemma FirstNodeMatches(g: Graph)
    requires g.nextNode == 2 && 0 in g.nodes
    ensures Resolved(g, FIRST, RIGHT) == [0]
  {
    var f := FIRST.source;
    assert BsonFormat.DocumentElements(BsonReader.DocumentBytes([])) == [];
    assert Passes(f, 0, g.nodes[0]);
    assert ScanOne(g.nodes, f, 0) == [0] && ScanOne(g.nodes, f, 1) == [];
    assert Scan(g.nodes, f, 2, 2) == [] && Scan(g.nodes, f, 1, 2) == [];
  }

  /** The frame of inserting an edge between the first two nodes and then detaching and deleting the first. */
  lemma ConflictingFrame(g: Graph, calls: seq<Call>)
    requires InDomain(g) && g.nextNode == 2 && g.nextEdge == 0 && 0 in g.nodes
    requires calls == [Insert(EDGE, 0, 1, EMPTY_HANDLE), DETACH_DELETE_FIRST]
    ensures Frame(g, calls) ==
            [Operation(INSERT_EDGE, 0, 0, 1, false, Some(EMPTY_HANDLE)), Operation(DELETE_NODE, 0, 0, 0, true, None)]
  {
    hide Resolved, GraphOk;
    var insert, delete := calls[0], calls[1];
    FirstNodeMatches(g);
    ResolvedIsLive(g, delete.pattern, delete.direction);
    assert calls[1..] == [delete] && [delete][1..] == [];
    assert FrameFrom(g, [], 2, 1) == [];
    assert CallOperations(g, delete, 2, 1) == [Operation(DELETE_NODE, 0, 0, 0, true, None)];
    assert FrameFrom(g, [delete], 2, 1) == CallOperations(g, delete, 2, 1) + [];
    assert CallOperations(g, insert, 2, 0) == [Operation(INSERT_EDGE, 0, 0, 1, false, Some(EMPTY_HANDLE))];
    assert Frame(g, calls) == CallOperations(g, insert, 2, 0) + FrameFrom(g, calls[1..], 2, 1);
  }

  /**
   * INSERT of two nodes; then, in a transaction, INSERT of an edge between them and DETACH DELETE
   * of the first: it commits, but a crash right before the log is cleared makes the next open and
   * every one after it fail.
   */
  lemma TransactionCanBlock() returns (g: Graph, calls: seq<Call>)
    ensures var inserts := [InsertNodeCall(EMPTY_HANDLE), InsertNodeCall(EMPTY_HANDLE)];
            g == ApplyAll(EMPTY_GRAPH, Frame(EMPTY_GRAPH, inserts)).graph
    ensures InDomain(g) && forall i :: 0 <= i < |calls| ==> BoundCall(calls[i])
    ensures Clean(g, Frame(g, calls)) && Conflicting(g, calls)
    ensures !Recover(g, Frame(g, calls), [|Frame(g, calls)|]).Ok()
    ensures forall h :: Evolves(ApplyAll(g, Frame(g, calls)).graph, h) ==> !ApplyAll(h, Frame(g, calls)).Ok()
  {
    hide Resolved, Recover, Evolves, ApplyFirst;
    var p := EMPTY_HANDLE;
    TwoInserts(p, p);
    g, calls := TwoNodes(), [Insert(EDGE, 0, 1, p), DETACH_DELETE_FIRST];
    ConflictingFrame(g, calls);
    var failing, ops := RecoveryCanFail();
    FirstNodeMatches(g);
    assert CallInsertsAt(calls[0], 0) && CallDeletesNode(g, calls[1], 0);
    assert Conflict(g, calls[0], calls[1]);
  }

  function TwoNodes(): Graph {
    Graph(map[0 := BsonReader.DocumentBytes(EMPTY_HANDLE), 1 := BsonReader.DocumentBytes(EMPTY_HANDLE)], map[], 2, 0)
  }

  // ----- A stale frame -----

  /** The frame of two node inserts in an empty database, and what it does. */
  lemma TwoInserts(p: seq<byte>, q: seq<byte>)
    ensures Frame(EMPTY_GRAPH, [InsertNodeCall(p), InsertNodeCall(q)]) ==
            [Operation(INSERT_NODE, 0, 0, 0, false, Some(p)), Operation(INSERT_NODE, 1, 0, 0, false, Some(q))]
    ensures Storable(BsonReader.DocumentBytes(p)) && p == q ==>
              ApplyAll(EMPTY_GRAPH, Frame(EMPTY_GRAPH, [InsertNodeCall(p), InsertNodeCall(q)])) ==
              Applied(Graph(map[0 := BsonReader.DocumentBytes(p), 1 := BsonReader.DocumentBytes(p)], map[], 2, 0), None)
  {
    hide BsonReader.DocumentBytes, Storable;
    var calls := [InsertNodeCall(p), InsertNodeCall(q)];
    assert calls[1..] == [calls[1]] && [calls[1]][1..] == [];
    assert FrameFrom(EMPTY_GRAPH, [], 2, 0) == [];
    assert FrameFrom(EMPTY_GRAPH, [calls[1]], 1, 0) == CallOperations(EMPTY_GRAPH, calls[1], 1, 0) + [];
    assert Frame(EMPTY_GRAPH, calls) ==
        CallOperations(EMPTY_GRAPH, calls[0], 0, 0) + FrameFrom(EMPTY_GRAPH, calls[1..], 1, 0);
    var ops := Frame(EMPTY_GRAPH, calls);
    assert ApplyFirst(EMPTY_GRAPH, ops, 0) == Applied(EMPTY_GRAPH, None);
    assert ApplyFirst(EMPTY_GRAPH, ops, 1) == ApplyOperation(EMPTY_GRAPH, ops[0]);
    assert Storable(BsonReader.DocumentBytes(p)) && p == q ==>
        ApplyFirst(EMPTY_GRAPH, ops, 2) == ApplyOperation(ApplyFirst(EMPTY_GRAPH, ops, 1).graph, ops[1]);
  }

  /** DELETE of node 0, outside a transaction. */
  const DELETE_FIRST: Operation := Operation(DELETE_NODE, 0, 0, 0, false, None)

  /** The graph with one node. */
  function OneNode(id: nat, doc: seq<byte>): Graph { Graph(map[id := doc], map[], id + 1, 0) }

  const NO_NODES: Graph := Graph(map[], map[], 1, 0)

  /** The effect of the operations below on the graphs they meet. */
  lemma StaleOperations(p: seq<byte>, q: seq<byte>)
    requires Storable(BsonReader.DocumentBytes(p)) && !Storable(BsonReader.DocumentBytes(q))
    ensures var doc := BsonReader.DocumentBytes(p);
            var first := Operation(INSERT_NODE, 0, 0, 0, false, Some(p));
            var second := Operation(INSERT_NODE, 1, 0, 0, false, Some(q));
            && ApplyOperation(EMPTY_GRAPH, first) == Applied(OneNode(0, doc), None)
            && ApplyOperation(OneNode(0, doc), second) == Applied(OneNode(0, doc), Some(Refused))
            && ApplyOperation(NO_NODES, first) == Applied(OneNode(1, doc), Some(IdMismatch))
            && ApplyAll(EMPTY_GRAPH, [first, second]).graph == OneNode(0, doc)
    ensures ApplyOperation(OneNode(0, BsonReader.DocumentBytes(p)), DELETE_FIRST) == Applied(NO_NODES, None)
  {
    hide BsonReader.DocumentBytes, Storable;
    var doc := BsonReader.DocumentBytes(p);
    var ops := [Operation(INSERT_NODE, 0, 0, 0, false, Some(p)), Operation(INSERT_NODE, 1, 0, 0, false, Some(q))];
    assert map[] + map[0 := doc] == map[0 := doc];
    assert !HasIncident(OneNode(0, doc), 0);
    assert map[0 := doc] - {0} == map[] && WithoutIncident(map[], 0) == map[];
    assert ApplyFirst(EMPTY_GRAPH, ops, 0) == Applied(EMPTY_GRAPH, None);
    assert ApplyFirst(EMPTY_GRAPH, ops, 1) == ApplyOperation(EMPTY_GRAPH, ops[0]);
    assert ApplyFirst(EMPTY_GRAPH, ops, 2) == ApplyOperation(OneNode(0, doc), ops[1]);
  }

  /**
   * A transaction of two inserts fails at the second, whose document the store does not take. A
   * statement then deletes the first node. After the next crash the replay of the frame that was
   * left stores the first document again, under an id no one asked for, and fails; every later
   * replay fails as well, and stores it once more.
   */
  lemma StaleFrame(p: seq<byte>, q: seq<byte>) returns (states: seq<System>, steps: seq<Step>)
    requires Storable(BsonReader.DocumentBytes(p)) && !Storable(BsonReader.DocumentBytes(q))
    ensures steps == [WriteFrame(Frame(EMPTY_GRAPH, [InsertNodeCall(p), InsertNodeCall(q)])), ApplyOne, ApplyOne,
                      Statement(DELETE_FIRST), Crash, Restart, ApplyOne]
    ensures Run(states, steps) && states[0].graph == EMPTY_GRAPH
    ensures Owed(EMPTY_GRAPH, steps) == NO_NODES
    ensures states[7].phase == Down && states[7].graph == OneNode(1, BsonReader.DocumentBytes(p))
    ensures forall h :: Evolves(states[7].graph, h) ==>
              ApplyAll(h, steps[0].ops) == Applied(InsertNode(h, BsonReader.DocumentBytes(p)).value, Some(IdMismatch))
  {
    hide BsonReader.DocumentBytes, Storable, ApplyOperation, ApplyFirst, FrameFrom, WellFormed, Evolves;
    var doc, calls := BsonReader.DocumentBytes(p), [InsertNodeCall(p), InsertNodeCall(q)];
    var ops := Frame(EMPTY_GRAPH, calls);
    TwoInserts(p, q);
    StaleOperations(p, q);
    FrameIsWellFormed(EMPTY_GRAPH, calls);
    steps := [WriteFrame(ops), ApplyOne, ApplyOne, Statement(DELETE_FIRST), Crash, Restart, ApplyOne];
    states := [System(EMPTY_GRAPH, None, Idle), System(EMPTY_GRAPH, Some(ops), Applying(0, false)),
               System(OneNode(0, doc), Some(ops), Applying(1, false)), System(OneNode(0, doc), Some(ops), Failed),
               System(NO_NODES, Some(ops), Failed), System(NO_NODES, Some(ops), Down),
               System(NO_NODES, Some(ops), Applying(0, true)), System(OneNode(1, doc), Some(ops), Down)];
    forall i, j | 0 <= i < |steps| && j == i + 1 ensures Next(states[i], states[j], steps[i]) {
      assert i == 0 || i == 1 || i == 2 || i == 3 || i == 4 || i == 5 || i == 6;
    }
    OwedAfterTwo(EMPTY_GRAPH, steps, 3);
    forall h | Evolves(states[7].graph, h)
      ensures ApplyAll(h, ops) == Applied(InsertNode(h, doc).value, Some(IdMismatch))
    {
      StaleReplay(p, h, ops);
    }
  }

  /** The first operation of the stale frame on any later graph. */
  lemma StaleReplay(p: seq<byte>, h: Graph, ops: seq<Operation>)
    requires Storable(BsonReader.DocumentBytes(p)) && Evolves(OneNode(1, BsonReader.DocumentBytes(p)), h)
    requires ops != [] && ops[0] == Operation(INSERT_NODE, 0, 0, 0, false, Some(p))
    ensures ApplyAll(h, ops) == Applied(InsertNode(h, BsonReader.DocumentBytes(p)).value, Some(IdMismatch))
  {
    hide BsonReader.DocumentBytes, Storable;
    assert ApplyFirst(h, ops, 0) == Applied(h, None);
    assert ApplyFirst(h, ops, 1) == Applied(InsertNode(h, BsonReader.DocumentBytes(p)).value, Some(IdMismatch));
    FailureSticks(h, ops, 1, |ops|);
  }

  /** What is owed when a frame is written, then a statement executed, and nothing else is done. */
  lemma OwedAfterTwo(g: Graph, steps: seq<Step>, m: nat)
    requires 0 < m < |steps| && steps[0].WriteFrame? && steps[m].Statement?
    requires forall i :: 0 < i < |steps| && i != m ==> Quiet(steps[i])
    ensures Owed(g, steps) == ApplyOperation(ApplyAll(g, steps[0].ops).graph, steps[m].op).graph
  {
    hide ApplyOperation, ApplyFirst, Owed, Quiet;
    OwedStays(g, steps, m + 1);
    assert steps[..m + 1] == steps[..m] + [steps[m]];
    OwedStep(g, steps[..m], steps[m]);
    OwedStays(g, steps[..m], 1);
    assert steps[..m][..1] == [] + [steps[0]];
    OwedStep(g, [], steps[0]);
    NothingOwed(g);
  }

  lemma NothingOwed(g: Graph)
    ensures Owed(g, []) == g
  {
  }

  // ----- A failed commit -----

  const DOCUMENT: seq<byte> := BsonReader.DocumentBytes(EMPTY_HANDLE)

  /** The two nodes with an edge between them. */
  function Joined(): Graph { TwoNodes().(edges := map[0 := EdgeRecord(0, 1, DOCUMENT)], nextEdge := 1) }

  lemma JoinedByInsert()
    ensures Joined() == ApplyAll(TwoNodes(), Frame(TwoNodes(), [Insert(EDGE, 0, 1, EMPTY_HANDLE)])).graph
  {
    var g, call := TwoNodes(), Insert(EDGE, 0, 1, EMPTY_HANDLE);
    assert [call][1..] == [] && FrameFrom(g, [], 2, 1) == [];
    var ops := Frame(g, [call]);
    assert ops == [Operation(INSERT_EDGE, 0, 0, 1, false, Some(EMPTY_HANDLE))];
    assert Storable(DOCUMENT);
    assert ApplyFirst(g, ops, 0) == Applied(g, None);
    assert ApplyFirst(g, ops, 1) == ApplyOperation(g, ops[0]);
  }

  const PLAIN_DELETE: Operation := Operation(DELETE_NODE, 0, 0, 0, false, None)

  /** The frame of the plain deletion of the first node, and its refusal while the node has an edge. */
  lemma PlainDelete()
    ensures InDomain(Joined()) && Frame(Joined(), [PLAIN_DELETE_FIRST]) == [PLAIN_DELETE]
    ensures ApplyOperation(Joined(), PLAIN_DELETE) == Applied(Joined(), Some(Refused))
    ensures ApplyAll(Joined(), [PLAIN_DELETE]) == Applied(Joined(), Some(Refused))
  {
    var g, call := Joined(), PLAIN_DELETE_FIRST;
    FirstNodeMatches(g);
    assert InDomain(g);
    assert [call][1..] == [] && FrameFrom(g, [], 2, 1) == [];
    ResolvedIsLive(g, call.pattern, call.direction);
    assert CallOperations(g, call, 2, 1) == [PLAIN_DELETE];
    assert Frame(g, [call]) == CallOperations(g, call, 2, 1) + FrameFrom(g, [], 2, 1);
    assert Incident(g.edges[0], 0) && HasIncident(g, 0);
    assert ApplyFirst(g, [PLAIN_DELETE], 0) == Applied(g, None);
    assert ApplyFirst(g, [PLAIN_DELETE], 1) == ApplyOperation(g, PLAIN_DELETE);
  }

  /**
   * DELETE of a node that has an edge, in a transaction: the commit fails and leaves its frame, and
   * with it a database that no later open, interrupted or not, brings up.
   */
  lemma FailedCommitBlocks(crashes: seq<nat>)
    ensures Joined() == ApplyAll(TwoNodes(), Frame(TwoNodes(), [Insert(EDGE, 0, 1, EMPTY_HANDLE)])).graph
    ensures Recover(Joined(), Frame(Joined(), [PLAIN_DELETE_FIRST]), crashes) == Applied(Joined(), Some(Refused))
  {
    hide Recover, FrameFrom, ApplyFirst, ApplyOperation, Resolved;
    JoinedByInsert();
    PlainDelete();
    assert BoundCall(PLAIN_DELETE_FIRST);
    FrameIsWellFormed(Joined(), [PLAIN_DELETE_FIRST]);
    assert Untouched([PLAIN_DELETE]);
    UntouchedIsUndisturbed(Joined(), [PLAIN_DELETE]);
    CrashesChangeNothing(Joined(), [PLAIN_DELETE], crashes);
  }

  /** DELETE of the edge, outside a transaction. */
  const DELETE_LINK: Operation := Operation(DELETE_EDGE, 0, 0, 0, false, None)

  /** What the steps below do: without its edge the node can be deleted. */
  lemma RevivedOperations()
    ensures ApplyOperation(Joined(), DELETE_LINK) == Applied(TwoNodes().(nextEdge := 1), None)
    ensures ApplyOperation(TwoNodes().(nextEdge := 1), PLAIN_DELETE) ==
            Applied(Graph(map[1 := DOCUMENT], map[], 2, 1), None)
  {
    var g := TwoNodes().(nextEdge := 1);
    assert Joined().edges - {0} == map[];
    assert !HasIncident(g, 0);
    assert g.nodes - {0} == map[1 := DOCUMENT] && WithoutIncident(map[], 0) == map[];
  }

  /**
   * The same transaction, and then a statement that deletes the edge: the next open carries out
   * the deletion that was reported to have failed, and clears the log.
   */
  lemma RevivedFrame() returns (states: seq<System>, steps: seq<Step>)
    ensures steps == [WriteFrame(Frame(Joined(), [PLAIN_DELETE_FIRST])), ApplyOne, Statement(DELETE_LINK),
                      Crash, Restart, ApplyOne, Clear]
    ensures Run(states, steps) && states[0] == System(Joined(), None, Idle)
    ensures Owed(Joined(), steps) == TwoNodes().(nextEdge := 1)
    ensures states[7] == System(Graph(map[1 := DOCUMENT], map[], 2, 1), None, Idle)
  {
    hide ApplyOperation, ApplyFirst, FrameFrom, WellFormed, Resolved;
    PlainDelete();
    RevivedOperations();
    assert BoundCall(PLAIN_DELETE_FIRST);
    FrameIsWellFormed(Joined(), [PLAIN_DELETE_FIRST]);
    var g, unlinked, ops := Joined(), TwoNodes().(nextEdge := 1), [PLAIN_DELETE];
    var deleted := Graph(map[1 := DOCUMENT], map[], 2, 1);
    steps := [WriteFrame(ops), ApplyOne, Statement(DELETE_LINK), Crash, Restart, ApplyOne, Clear];
    states := [System(g, None, Idle), System(g, Some(ops), Applying(0, false)), System(g, Some(ops), Failed),
               System(unlinked, Some(ops), Failed), System(unlinked, Some(ops), Down),
               System(unlinked, Some(ops), Applying(0, true)), System(deleted, Some(ops), Applying(1, true)),
               System(deleted, None, Idle)];
    forall i, j | 0 <= i < |steps| && j == i + 1 ensures Next(states[i], states[j], steps[i]) {
      assert i == 0 || i == 1 || i == 2 || i == 3 || i == 4 || i == 5 || i == 6;
    }
    OwedAfterTwo(Joined(), steps, 2);
  }

  // ----- A frame that fails alike although it touches a node it deletes -----

  /** Insert an edge, detach and delete its source, then an update the store refuses. */
  function TouchedAndRefused(q: seq<byte>): seq<Operation> {
    [Operation(INSERT_EDGE, 0, 0, 1, false, Some(EMPTY_HANDLE)), Operation(DELETE_NODE, 0, 0, 0, true, None),
     Operation(UPDATE_NODE, 1, 0, 0, false, Some(q))]
  }

  /** The graphs on its way. */
  predicate OnItsWay(h: Graph) {
    h == TwoNodes() || h == Joined() || h == Graph(map[1 := DOCUMENT], map[], 2, 1)
  }

  lemma TouchedOperations(q: seq<byte>)
    requires !Storable(BsonReader.DocumentBytes(q))
    ensures var ops, last := TouchedAndRefused(q), Graph(map[1 := DOCUMENT], map[], 2, 1);
            && ApplyOperation(TwoNodes(), ops[0]) == ApplyOperation(Joined(), ops[0]) == Applied(Joined(), None)
            && ApplyOperation(Joined(), ops[1]) == Applied(last, None)
            && ApplyOperation(last, ops[0]) == ApplyOperation(last, ops[2]) == Applied(last, Some(Refused))
  {
    assert Storable(DOCUMENT);
    assert Joined().nodes - {0} == map[1 := DOCUMENT];
    assert Incident(Joined().edges[0], 0) && WithoutIncident(Joined().edges, 0) == map[];
  }

  lemma TouchedReplay(q: seq<byte>, h: Graph, n: nat)
    requires !Storable(BsonReader.DocumentBytes(q)) && OnItsWay(h) && n <= 3
    ensures OnItsWay(ApplyFirst(h, TouchedAndRefused(q), n).graph)
    ensures n == 3 ==>
              ApplyFirst(h, TouchedAndRefused(q), n) == Applied(Graph(map[1 := DOCUMENT], map[], 2, 1), Some(Refused))
    ensures n == 2 && h == TwoNodes() ==> ApplyFirst(h, TouchedAndRefused(q), n).Ok()
  {
    hide ApplyOperation, BsonReader.DocumentBytes, Storable;
    TouchedOperations(q);
    var ops := TouchedAndRefused(q);
    assert ApplyFirst(h, ops, 0) == Applied(h, None);
    assert ApplyFirst(h, ops, 1) == ApplyOperation(h, ops[0]);
    if n >= 2 {
      var first := ApplyFirst(h, ops, 1);
      assert ApplyFirst(h, ops, 2) == if first.Ok() then ApplyOperation(Joined(), ops[1]) else first;
    }
  }

  lemma {:induction false} TouchedInterrupted(q: seq<byte>, h: Graph, crashes: seq<nat>)
    requires !Storable(BsonReader.DocumentBytes(q)) && OnItsWay(h)
    ensures OnItsWay(Interrupted(h, TouchedAndRefused(q), crashes))
    decreases |crashes|
  {
    hide ApplyFirst, OnItsWay, BsonReader.DocumentBytes, Storable;
    if crashes != [] {
      var n := if crashes[0] < 3 then crashes[0] else 3;
      TouchedReplay(q, h, n);
      TouchedInterrupted(q, ApplyFirst(h, TouchedAndRefused(q), n).graph, crashes[1..]);
    }
  }

  /**
   * For frames that fail the condition of `CrashesChangeNothing` is not necessary: this one inserts
   * an edge at a node it deletes, both before the refusal, and no crash changes its outcome.
   */
  lemma TouchedButSteady(q: seq<byte>, crashes: seq<nat>)
    requires !Storable(BsonReader.DocumentBytes(q))
    ensures var g, ops := TwoNodes(), TouchedAndRefused(q);
            && WellFormed(g, ops) && !Clean(g, ops) && !Undisturbed(g, ops)
            && Recover(g, ops, crashes) == ApplyAll(g, ops)
  {
    hide ApplyFirst, BsonReader.DocumentBytes, Storable, ApplyOperation, Interrupted;
    var g, ops := TwoNodes(), TouchedAndRefused(q);
    assert WellFormedAt(g, ops, 0) && WellFormedAt(g, ops, 1) && WellFormedAt(g, ops, 2);
    TouchedInterrupted(q, g, crashes);
    TouchedReplay(q, Interrupted(g, ops, crashes), 3);
    TouchedReplay(q, g, 3);
    TouchedReplay(q, g, 2);
    TouchedEnds(q);
    assert Touches(ops[..2][0], ops[..2][1]);
  }

  lemma TouchedEnds(q: seq<byte>)
    requires !Storable(BsonReader.DocumentBytes(q))
    ensures EndsAt(TwoNodes(), TouchedAndRefused(q), 2)
  {
    hide ApplyOperation, BsonReader.DocumentBytes, Storable;
    TouchedOperations(q);
    var g, ops := TwoNodes(), TouchedAndRefused(q);
    assert ApplyFirst(g, ops, 0) == Applied(g, None);
    assert ApplyFirst(g, ops, 1) == ApplyOperation(g, ops[0]);
    assert ApplyFirst(g, ops, 2) == ApplyOperation(Joined(), ops[1]);
  }
}
