/** Transactions: buffered calls, resolved against the store as it was, logged as one frame and applied. */
module Transaction {
  import opened Bytes
  import opened PropertyGraph
  import opened RedoLog
  import opened Recovery
  import opened CrashMachine
  import opened Matching
  import opened GraphStore
  import opened Execution
  import BsonReader
  import WriteAheadLog

  // ----- The frame of a transaction -----

  function InsertOperation(c: Call, id: u64): Operation
    requires c.Insert?
  {
    Operation(if c.kind == NODE then INSERT_NODE else INSERT_EDGE, id, c.source, c.destination, false, Some(c.payload))
  }

  function MatchOperation(c: Call, id: u64): Operation
    requires !c.Insert?
  {
    var isNode := c.pattern.kind == NODE;
    if c.Update? then Operation(if isNode then UPDATE_NODE else UPDATE_EDGE, id, 0, 0, false, Some(c.payload))
    else Operation(if isNode then DELETE_NODE else DELETE_EDGE, id, 0, 0, c.detach, None)
  }

  function MatchOperations(c: Call, ids: seq<nat>): (ops: seq<Operation>)
    requires !c.Insert? && forall i :: 0 <= i < |ids| ==> ids[i] <= UINT64_MAX
    ensures |ops| == |ids| && forall i :: 0 <= i < |ids| ==> ops[i] == MatchOperation(c, ids[i])
  {
    seq(|ids|, i requires 0 <= i < |ids| => MatchOperation(c, ids[i]))
  }

  /** A counter of ids, wrapping around. */
  function Advance(base: u64): u64 { if base == UINT64_MAX then 0 else base + 1 }

  function NodeBaseAfter(c: Call, base: u64): u64 { if c.Insert? && c.kind == NODE then Advance(base) else base }

  function EdgeBaseAfter(c: Call, base: u64): u64 { if c.Insert? && c.kind == EDGE then Advance(base) else base }

  /** What one call contributes, its matches resolved against the graph before the transaction. */
  ghost function CallOperations(g: Graph, c: Call, nodeBase: u64, edgeBase: u64): seq<Operation>
    requires InDomain(g) && BoundCall(c)
  {
    if c.Insert? then [InsertOperation(c, if c.kind == NODE then nodeBase else edgeBase)]
    else
      ResolvedIsLive(g, c.pattern, c.direction);
      MatchOperations(c, Resolved(g, c.pattern, c.direction))
  }

  ghost function FrameFrom(g: Graph, calls: seq<Call>, nodeBase: u64, edgeBase: u64): seq<Operation>
    requires InDomain(g) && forall i :: 0 <= i < |calls| ==> BoundCall(calls[i])
  {
    if calls == [] then []
    else
      CallOperations(g, calls[0], nodeBase, edgeBase)
      + FrameFrom(g, calls[1..], NodeBaseAfter(calls[0], nodeBase), EdgeBaseAfter(calls[0], edgeBase))
  }

  /** The frame a commit writes. */
  ghost function Frame(g: Graph, calls: seq<Call>): seq<Operation>
    requires InDomain(g) && forall i :: 0 <= i < |calls| ==> BoundCall(calls[i])
  {
    FrameFrom(g, calls, g.nextNode, g.nextEdge)
  }

  // ----- Commit's ids are exact -----

  lemma {:induction false} CountPrefix(ops: seq<Operation>, more: seq<Operation>, n: nat, opcode: u32)
    requires n <= |ops|
    ensures Count(ops + more, n, opcode) == Count(ops, n, opcode)
  {
    if n > 0 {
      CountPrefix(ops, more, n - 1, opcode);
    }
  }

  /** What was well formed stays so with more operations behind it. */
  lemma WellFormedPrefix(g: Graph, ops: seq<Operation>, more: seq<Operation>, i: nat)
    requires i < |ops| && WellFormedAt(g, ops, i)
    ensures WellFormedAt(g, ops + more, i)
  {
    CountPrefix(ops, more, i, INSERT_NODE);
    CountPrefix(ops, more, i, INSERT_EDGE);
  }

  lemma WellFormedSnoc(g: Graph, ops: seq<Operation>, op: Operation)
    requires WellFormed(g, ops)
    requires op.opcode == INSERT_NODE ==> op.id == g.nextNode + Count(ops, |ops|, INSERT_NODE)
    requires op.opcode == INSERT_EDGE ==> op.id == g.nextEdge + Count(ops, |ops|, INSERT_EDGE)
    requires op.opcode == UPDATE_NODE || op.opcode == DELETE_NODE ==> op.id in g.nodes
    requires op.opcode == UPDATE_EDGE || op.opcode == DELETE_EDGE ==> op.id in g.edges
    requires op.opcode <= DELETE_EDGE
    ensures WellFormed(g, ops + [op])
    ensures forall opcode: u32 ::
              Count(ops + [op], |ops| + 1, opcode) == Count(ops, |ops|, opcode) + if op.opcode == opcode then 1 else 0
  {
    hide WellFormedAt;
    forall i | 0 <= i < |ops| ensures WellFormedAt(g, ops + [op], i) {
      WellFormedPrefix(g, ops, [op], i);
    }
    forall opcode: u32
      ensures Count(ops + [op], |ops|, opcode) == Count(ops, |ops|, opcode)
    {
      CountPrefix(ops, [op], |ops|, opcode);
    }
    LastWellFormed(g, ops, op);
  }

  lemma LastWellFormed(g: Graph, ops: seq<Operation>, op: Operation)
    requires op.opcode == INSERT_NODE ==> op.id == g.nextNode + Count(ops, |ops|, INSERT_NODE)
    requires op.opcode == INSERT_EDGE ==> op.id == g.nextEdge + Count(ops, |ops|, INSERT_EDGE)
    requires op.opcode == UPDATE_NODE || op.opcode == DELETE_NODE ==> op.id in g.nodes
    requires op.opcode == UPDATE_EDGE || op.opcode == DELETE_EDGE ==> op.id in g.edges
    requires op.opcode <= DELETE_EDGE
    ensures WellFormedAt(g, ops + [op], |ops|)
  {
    CountPrefix(ops, [op], |ops|, INSERT_NODE);
    CountPrefix(ops, [op], |ops|, INSERT_EDGE);
  }

  /** Updates and deletions of live ids are well formed anywhere, and predict no id. */
  lemma {:induction false} MatchesWellFormed(g: Graph, ops: seq<Operation>, c: Call, ids: seq<nat>)
    requires InDomain(g) && WellFormed(g, ops) && !c.Insert? && AllLive(g, c.pattern.kind, ids)
    ensures forall i :: 0 <= i < |ids| ==> ids[i] <= UINT64_MAX
    ensures var all := ops + MatchOperations(c, ids);
            && WellFormed(g, all)
            && Count(all, |all|, INSERT_NODE) == Count(ops, |ops|, INSERT_NODE)
            && Count(all, |all|, INSERT_EDGE) == Count(ops, |ops|, INSERT_EDGE)
  {
    hide WellFormed, Count, GraphOk;
    LiveInDomain(g, c.pattern.kind, ids);
    if ids == [] {
      assert ops + MatchOperations(c, ids) == ops;
    } else {
      var n := |ids| - 1;
      MatchesWellFormed(g, ops, c, ids[..n]);
      assert ids[n] in Objects(g, c.pattern.kind);
      var all := ops + MatchOperations(c, ids[..n]);
      WellFormedSnoc(g, all, MatchOperation(c, ids[n]));
      assert ops + MatchOperations(c, ids) == all + [MatchOperation(c, ids[n])];
    }
  }

  lemma {:induction false} FrameFromWellFormed(g: Graph, ops: seq<Operation>, calls: seq<Call>, nodeBase: u64,
                                               edgeBase: u64)
    requires InDomain(g) && WellFormed(g, ops) && forall i :: 0 <= i < |calls| ==> BoundCall(calls[i])
    requires nodeBase == g.nextNode + Count(ops, |ops|, INSERT_NODE)
    requires edgeBase == g.nextEdge + Count(ops, |ops|, INSERT_EDGE)
    requires nodeBase + |calls| <= UINT64_MAX && edgeBase + |calls| <= UINT64_MAX
    ensures WellFormed(g, ops + FrameFrom(g, calls, nodeBase, edgeBase))
    decreases |calls|
  {
    hide WellFormed, Count, GraphOk, Resolved;
    if calls == [] {
      assert ops + FrameFrom(g, calls, nodeBase, edgeBase) == ops;
    } else {
      var c, rest := calls[0], calls[1..];
      var mine := CallOperations(g, c, nodeBase, edgeBase);
      if c.Insert? {
        WellFormedSnoc(g, ops, mine[0]);
      } else {
        ResolvedIsLive(g, c.pattern, c.direction);
        MatchesWellFormed(g, ops, c, Resolved(g, c.pattern, c.direction));
      }
      var nodes, edges := NodeBaseAfter(c, nodeBase), EdgeBaseAfter(c, edgeBase);
      FrameFromWellFormed(g, ops + mine, rest, nodes, edges);
      ConcatAssoc(ops, mine, FrameFrom(g, rest, nodes, edges));
    }
  }

  /**
   * Commit's frame is well formed: the ids it predicts are those the store will assign, and its
   * updates and deletions name only objects that existed before.
   */
  lemma FrameIsWellFormed(g: Graph, calls: seq<Call>)
    requires InDomain(g) && forall i :: 0 <= i < |calls| ==> BoundCall(calls[i])
    requires g.nextNode + |calls| <= UINT64_MAX && g.nextEdge + |calls| <= UINT64_MAX
    ensures WellFormed(g, Frame(g, calls))
  {
    FrameFromWellFormed(g, [], calls, g.nextNode, g.nextEdge);
    assert [] + Frame(g, calls) == Frame(g, calls);
  }

  /** So applying the frame of a commit never runs into an id mismatch or an unknown opcode. */
  lemma CommitNeverMismatches(g: Graph, calls: seq<Call>, n: nat)
    requires InDomain(g) && forall i :: 0 <= i < |calls| ==> BoundCall(calls[i])
    requires g.nextNode + |calls| <= UINT64_MAX && g.nextEdge + |calls| <= UINT64_MAX
    requires n <= |Frame(g, calls)|
    ensures ApplyFirst(g, Frame(g, calls), n).failure in {None, Some(Refused)}
  {
    hide ApplyFirst, FrameFrom, WellFormed;
    FrameIsWellFormed(g, calls);
    IdsNeverMismatch(g, Frame(g, calls), n);
  }

  // ----- When a transaction survives every crash -----

  /** Some operation of the frame inserts an edge with the endpoint. */
  ghost predicate InsertsAt(ops: seq<Operation>, node: nat) {
    exists i :: 0 <= i < |ops| && ops[i].opcode == INSERT_EDGE && (ops[i].source == node || ops[i].destination == node)
  }

  ghost predicate DeletesNode(ops: seq<Operation>, node: nat) {
    exists i :: 0 <= i < |ops| && ops[i].opcode == DELETE_NODE && ops[i].id == node
  }

  lemma UntouchedByNode(ops: seq<Operation>)
    ensures Untouched(ops) <==> forall node: nat :: !(InsertsAt(ops, node) && DeletesNode(ops, node))
  {
    forall i, j | 0 <= i < |ops| && 0 <= j < |ops| && Touches(ops[i], ops[j])
      ensures InsertsAt(ops, ops[j].id) && DeletesNode(ops, ops[j].id)
    {
    }
    forall node: nat | InsertsAt(ops, node) && DeletesNode(ops, node) ensures !Untouched(ops) {
      var i :| 0 <= i < |ops| && ops[i].opcode == INSERT_EDGE && (ops[i].source == node || ops[i].destination == node);
      var j :| 0 <= j < |ops| && ops[j].opcode == DELETE_NODE && ops[j].id == node;
      assert Touches(ops[i], ops[j]);
    }
  }

  lemma TouchesConcat(a: seq<Operation>, b: seq<Operation>, node: nat)
    ensures InsertsAt(a + b, node) <==> InsertsAt(a, node) || InsertsAt(b, node)
    ensures DeletesNode(a + b, node) <==> DeletesNode(a, node) || DeletesNode(b, node)
  {
    var all := a + b;
    assert forall i :: 0 <= i < |a| ==> all[i] == a[i];
    forall i | 0 <= i < |b| ensures all[|a| + i] == b[i] {
    }
    if InsertsAt(b, node) {
      var i :| 0 <= i < |b| && b[i].opcode == INSERT_EDGE && (b[i].source == node || b[i].destination == node);
      assert all[|a| + i].opcode == INSERT_EDGE;
    }
    if DeletesNode(b, node) {
      var i :| 0 <= i < |b| && b[i].opcode == DELETE_NODE && b[i].id == node;
      assert all[|a| + i].opcode == DELETE_NODE;
    }
    forall i | |a| <= i < |all| ensures all[i] == b[i - |a|] {
    }
  }

  /** The call inserts an edge with the endpoint. */
  predicate CallInsertsAt(c: Call, node: nat) {
    c.Insert? && c.kind == EDGE && (c.source == node || c.destination == node)
  }

  /** The call deletes the node: its pattern resolves to it before the transaction. */
  ghost predicate CallDeletesNode(g: Graph, c: Call, node: nat) {
    c.Delete? && c.pattern.kind == NODE && node in Resolved(g, c.pattern, c.direction)
  }

  lemma CallTouches(g: Graph, c: Call, nodeBase: u64, edgeBase: u64, node: nat)
    requires InDomain(g) && BoundCall(c)
    ensures InsertsAt(CallOperations(g, c, nodeBase, edgeBase), node) <==> CallInsertsAt(c, node)
    ensures DeletesNode(CallOperations(g, c, nodeBase, edgeBase), node) <==> CallDeletesNode(g, c, node)
  {
    hide Resolved, GraphOk;
    var ops := CallOperations(g, c, nodeBase, edgeBase);
    if c.Insert? {
      assert ops[0].opcode == if c.kind == NODE then INSERT_NODE else INSERT_EDGE;
    } else {
      ResolvedIsLive(g, c.pattern, c.direction);
      var ids := Resolved(g, c.pattern, c.direction);
      if CallDeletesNode(g, c, node) {
        var i :| 0 <= i < |ids| && ids[i] == node;
        assert ops[i].opcode == DELETE_NODE;
      }
    }
  }

  lemma {:induction false} FrameTouches(g: Graph, calls: seq<Call>, nodeBase: u64, edgeBase: u64, node: nat)
    requires InDomain(g) && forall i :: 0 <= i < |calls| ==> BoundCall(calls[i])
    ensures InsertsAt(FrameFrom(g, calls, nodeBase, edgeBase), node) <==>
            exists i :: 0 <= i < |calls| && CallInsertsAt(calls[i], node)
    ensures DeletesNode(FrameFrom(g, calls, nodeBase, edgeBase), node) <==>
            exists i :: 0 <= i < |calls| && CallDeletesNode(g, calls[i], node)
    decreases |calls|
  {
    hide CallInsertsAt, CallDeletesNode, CallOperations, GraphOk;
    if calls != [] {
      var c, rest := calls[0], calls[1..];
      var nodes, edges := NodeBaseAfter(c, nodeBase), EdgeBaseAfter(c, edgeBase);
      CallTouches(g, c, nodeBase, edgeBase, node);
      FrameTouches(g, rest, nodes, edges, node);
      TouchesConcat(CallOperations(g, c, nodeBase, edgeBase), FrameFrom(g, rest, nodes, edges), node);
      assert forall i :: 0 <= i < |rest| ==> rest[i] == calls[i + 1];
      assert forall i :: 0 < i < |calls| ==> calls[i] == rest[i - 1];
      assert (exists i :: 0 <= i < |calls| && CallInsertsAt(calls[i], node)) <==>
             CallInsertsAt(c, node) || exists i :: 0 <= i < |rest| && CallInsertsAt(rest[i], node);
      assert (exists i :: 0 <= i < |calls| && CallDeletesNode(g, calls[i], node)) <==>
             CallDeletesNode(g, c, node) || exists i :: 0 <= i < |rest| && CallDeletesNode(g, rest[i], node);
    }
  }

  /** One call inserts an edge at a node that another call of the transaction deletes. */
  ghost predicate Conflict(g: Graph, insert: Call, delete: Call) {
    exists node: nat :: CallInsertsAt(insert, node) && CallDeletesNode(g, delete, node)
  }

  ghost predicate Conflicting(g: Graph, calls: seq<Call>) {
    exists i, j :: 0 <= i < |calls| && 0 <= j < |calls| && Conflict(g, calls[i], calls[j])
  }

  lemma FrameUntouchedIff(g: Graph, calls: seq<Call>)
    requires InDomain(g) && forall i :: 0 <= i < |calls| ==> BoundCall(calls[i])
    ensures Untouched(Frame(g, calls)) <==> !Conflicting(g, calls)
  {
    hide Untouched, GraphOk, FrameFrom, CallInsertsAt, CallDeletesNode, InsertsAt, DeletesNode;
    var ops := Frame(g, calls);
    UntouchedByNode(ops);
    forall node: nat
      ensures InsertsAt(ops, node) <==> exists i :: 0 <= i < |calls| && CallInsertsAt(calls[i], node)
      ensures DeletesNode(ops, node) <==> exists i :: 0 <= i < |calls| && CallDeletesNode(g, calls[i], node)
    {
      FrameTouches(g, calls, g.nextNode, g.nextEdge, node);
    }
    if Conflicting(g, calls) {
      var i, j :| 0 <= i < |calls| && 0 <= j < |calls| && Conflict(g, calls[i], calls[j]);
      var node: nat :| CallInsertsAt(calls[i], node) && CallDeletesNode(g, calls[j], node);
      assert InsertsAt(ops, node) && DeletesNode(ops, node);
    }
    forall node: nat, i, j
      | 0 <= i < |calls| && 0 <= j < |calls| && CallInsertsAt(calls[i], node) && CallDeletesNode(g, calls[j], node)
      ensures Conflicting(g, calls)
    {
      assert Conflict(g, calls[i], calls[j]);
    }
  }

  /**
   * A transaction that applies cleanly survives every schedule of crashes exactly when none of its
   * calls inserts an edge at a node that another deletes.
   */
  lemma TransactionRecoverableIff(g: Graph, calls: seq<Call>)
    requires InDomain(g) && forall i :: 0 <= i < |calls| ==> BoundCall(calls[i])
    requires g.nextNode + |calls| <= UINT64_MAX && g.nextEdge + |calls| <= UINT64_MAX
    requires Clean(g, Frame(g, calls))
    ensures (forall crashes :: Recover(g, Frame(g, calls), crashes) == ApplyAll(g, Frame(g, calls))) <==>
            !Conflicting(g, calls)
  {
    hide Untouched, WellFormed, GraphOk, FrameFrom, ApplyFirst, Recover, Conflicting;
    FrameIsWellFormed(g, calls);
    RecoverableIff(g, Frame(g, calls));
    FrameUntouchedIff(g, calls);
  }

  /** Without conflicting calls crashes never change the outcome of a commit, success or failure. */
  lemma CommitSurvivesCrashes(g: Graph, calls: seq<Call>, crashes: seq<nat>)
    requires InDomain(g) && forall i :: 0 <= i < |calls| ==> BoundCall(calls[i])
    requires g.nextNode + |calls| <= UINT64_MAX && g.nextEdge + |calls| <= UINT64_MAX
    requires !Conflicting(g, calls)
    ensures Recover(g, Frame(g, calls), crashes) == ApplyAll(g, Frame(g, calls))
  {
    hide Untouched, Undisturbed, WellFormed, GraphOk, FrameFrom, ApplyFirst, Recover, Conflicting;
    FrameIsWellFormed(g, calls);
    FrameUntouchedIff(g, calls);
    UntouchedIsUndisturbed(g, Frame(g, calls));
    CrashesChangeNothing(g, Frame(g, calls), crashes);
  }

  /** Whatever its calls, a recovery that completes has the outcome of the uninterrupted commit. */
  lemma CommitNeverWrong(g: Graph, calls: seq<Call>, crashes: seq<nat>)
    requires InDomain(g) && forall i :: 0 <= i < |calls| ==> BoundCall(calls[i])
    requires g.nextNode + |calls| <= UINT64_MAX && g.nextEdge + |calls| <= UINT64_MAX
    ensures Recover(g, Frame(g, calls), crashes).Ok() ==>
              Recover(g, Frame(g, calls), crashes) == ApplyAll(g, Frame(g, calls))
  {
    hide WellFormed, GraphOk, FrameFrom, ApplyFirst, Recover;
    FrameIsWellFormed(g, calls);
    RecoveryNeverWrong(g, Frame(g, calls), crashes);
  }

  /** Every commit is a careful step of the crash machine. */
  lemma CommitIsMachineStep(s: System, calls: seq<Call>)
    requires s.phase == Failed || (s.phase == Idle && s.log == None)
    requires InDomain(s.graph) && forall i :: 0 <= i < |calls| ==> BoundCall(calls[i])
    requires s.graph.nextNode + |calls| <= UINT64_MAX && s.graph.nextEdge + |calls| <= UINT64_MAX
    ensures var ops := Frame(s.graph, calls);
            && Next(s, s.(log := Some(ops), phase := Applying(0, false)), WriteFrame(ops))
            && Careful(s, WriteFrame(ops))
  {
    hide WellFormed, GraphOk, FrameFrom, ApplyFirst;
    FrameIsWellFormed(s.graph, calls);
  }

  /** A transaction's payloads, like every document, are shorter than 2^32 bytes. */
  predicate EncodableCall(c: Call) { c.Delete? || |BsonReader.DocumentBytes(c.payload)| <= UINT32_MAX }

  predicate Committable(calls: seq<Call>) {
    forall i :: 0 <= i < |calls| ==> BoundCall(calls[i]) && EncodableCall(calls[i])
  }

  lemma {:induction false} FrameEncodable(g: Graph, calls: seq<Call>, nodeBase: u64, edgeBase: u64)
    requires InDomain(g) && Committable(calls)
    ensures forall i :: 0 <= i < |FrameFrom(g, calls, nodeBase, edgeBase)| ==>
              WriteAheadLog.Encodable(FrameFrom(g, calls, nodeBase, edgeBase)[i])
    decreases |calls|
  {
    hide Resolved, GraphOk, BsonReader.DocumentBytes;
    if calls != [] {
      var c := calls[0];
      var mine := CallOperations(g, c, nodeBase, edgeBase);
      FrameEncodable(g, calls[1..], NodeBaseAfter(c, nodeBase), EdgeBaseAfter(c, edgeBase));
      forall i | 0 <= i < |mine| ensures WriteAheadLog.Encodable(mine[i]) {
        if !c.Insert? {
          ResolvedIsLive(g, c.pattern, c.direction);
        }
      }
    }
  }

  /** The operations of one match call. */
  method MatchedOperations(store: Store, c: Call, ghost g: Graph) returns (ops: seq<Operation>)
    requires store.Represents(g) && InDomain(g) && !c.Insert? && BoundCall(c)
    ensures ops == CallOperations(g, c, g.nextNode, g.nextEdge)
  {
    hide Store.Valid, Store.Graph, Resolved, MatchOperation, GraphOk;
    ResolvedIsLive(g, c.pattern, c.direction);
    var ids := ResolveMatch(store, c.pattern, c.direction);
    LiveInDomain(g, c.pattern.kind, ids);
    ops := [];
    for index := 0 to |ids|
      invariant ops == MatchOperations(c, ids)[..index]
    {
      ops := ops + [MatchOperation(c, ids[index])];
    }
  }

  /** The resolving loop of a commit: counters start at the id capacities, matches see the store as it was. */
  method BuildFrame(store: Store, calls: seq<Call>, ghost g: Graph) returns (ops: seq<Operation>)
    requires store.Represents(g) && InDomain(g) && Committable(calls)
    ensures ops == Frame(g, calls)
  {
    hide Store.Valid, Store.Graph, CallOperations, GraphOk, InsertOperation;
    var nodeBase, edgeBase := store.IdCapacities(g);
    ops := [];
    assert calls[0..] == calls;
    for index := 0 to |calls|
      invariant ops + FrameFrom(g, calls[index..], nodeBase, edgeBase) == Frame(g, calls)
    {
      var c := calls[index];
      assert calls[index..][1..] == calls[index + 1..] && calls[index..][0] == c;
      ghost var rest := FrameFrom(g, calls[index + 1..], NodeBaseAfter(c, nodeBase), EdgeBaseAfter(c, edgeBase));
      ConcatAssoc(ops, CallOperations(g, c, nodeBase, edgeBase), rest);
      if c.Insert? {
        InsertAlone(g, c, nodeBase, edgeBase);
        ops := ops + [InsertOperation(c, if c.kind == NODE then nodeBase else edgeBase)];
      } else {
        MatchesIgnoreBases(g, c, nodeBase, edgeBase);
        var matched := MatchedOperations(store, c, g);
        ops := ops + matched;
      }
      nodeBase, edgeBase := NodeBaseAfter(c, nodeBase), EdgeBaseAfter(c, edgeBase);
    }
    assert calls[|calls|..] == [];
  }

  lemma InsertAlone(g: Graph, c: Call, nodeBase: u64, edgeBase: u64)
    requires InDomain(g) && c.Insert?
    ensures CallOperations(g, c, nodeBase, edgeBase) ==
            [InsertOperation(c, if c.kind == NODE then nodeBase else edgeBase)]
  {
  }

  lemma MatchesIgnoreBases(g: Graph, c: Call, nodeBase: u64, edgeBase: u64)
    requires InDomain(g) && !c.Insert? && BoundCall(c)
    ensures CallOperations(g, c, nodeBase, edgeBase) == CallOperations(g, c, g.nextNode, g.nextEdge)
  {
    hide Resolved;
  }

  class Transaction {
    const store: Store
    const log: WriteAheadLog.Log
    var active: bool
    var calls: seq<Call>

    /** linklet_database_begin */
    constructor Begin(store: Store, log: WriteAheadLog.Log)
      ensures this.store == store && this.log == log && active && calls == []
    {
      this.store, this.log := store, log;
      active, calls := true, [];
    }

    /** linklet_transaction_execute, on a bound call: buffering touches neither store nor log. */
    method Execute(c: Call) returns (ok: bool)
      modifies this
      ensures ok == old(active) && active == old(active)
      ensures calls == if ok then old(calls) + [c] else old(calls)
    {
      if !active {
        return false;
      }
      calls := calls + [c];
      ok := true;
    }

    /**
     * linklet_transaction_commit. As long as the files have room it succeeds exactly when the whole
     * frame applies, and leaves the log clear; a failure leaves the frame in the log and the store
     * where a prefix of the frame leads.
     */
    method Commit(transactionId: u64, ghost g: Graph) returns (ok: bool, ghost done: nat)
      requires store.Represents(g) && log.Valid() && InDomain(g)
      requires Committable(calls) && |Frame(g, calls)| <= UINT64_MAX
      modifies this, log, store, store.nodes, store.edges
      ensures store.Valid() && log.Valid() && (store.Room() ==> old(store.Room()))
      ensures !old(active) ==> !ok && calls == old(calls) && !active && store.Graph() == g && log.disk == old(log.disk)
      ensures old(active) ==> !active && calls == [] && done <= |Frame(g, old(calls))|
      ensures old(active) && ok ==> log.IsClear() && ApplyAll(g, Frame(g, old(calls))) == Applied(store.Graph(), None)
      ensures old(active) && !ok ==>
                log.Holds(transactionId, Frame(g, old(calls)))
                && store.Graph() == ApplyFirst(g, Frame(g, old(calls)), done).graph
      ensures old(active) && store.Room() ==> (ok <==> ApplyAll(g, Frame(g, old(calls))).Ok())
    {
      hide Store.Valid, Store.Graph, Store.Room, GraphOk, ApplyFirst, FrameFrom, WriteAheadLog.EncodeFrame;
      hide WriteAheadLog.Encodable;
      if !active {
        return false, 0;
      }
      var ops := BuildFrame(store, calls, g);
      FrameEncodable(g, calls, g.nextNode, g.nextEdge);
      log.WriteFrame(transactionId, ops);
      ok, done := WriteAheadLog.Apply(store, ops);
      if ok {
        log.Clear();
        done := |ops|;
      }
      active, calls := false, [];
    }

    /** linklet_transaction_abort: nothing was written yet. */
    method Abort()
      modifies this
      ensures !active && calls == []
    {
      active, calls := false, [];
    }
  }
}
