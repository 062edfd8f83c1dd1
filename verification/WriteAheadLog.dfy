/** The log file: one frame of operations behind a header, written, replayed and cleared. */
module WriteAheadLog {
  import opened Bytes
  import opened RedoLog
  import opened PropertyGraph
  import BsonReader
  import GraphStore

  const WAL_HEADER_SIZE: nat := 64
  const RECORD_HEADER_SIZE: nat := 33
  const WAL_VERSION: u32 := 1
  const WAL_MAGIC: seq<byte> := [76, 78, 75, 87, 65, 76, 49, 0]

  // ----- The frame format -----

  /** The bytes of a payload: none for a null pointer, the document's otherwise. */
  function PayloadBytes(op: Operation): seq<byte> {
    if op.payload.Some? then BsonReader.DocumentBytes(op.payload.value) else []
  }

  predicate Encodable(op: Operation) { |PayloadBytes(op)| <= UINT32_MAX }

  ghost predicate AllEncodable(ops: seq<Operation>) {
    |ops| <= UINT64_MAX && forall i :: 0 <= i < |ops| ==> Encodable(ops[i])
  }

  function RecordSize(op: Operation): nat { RECORD_HEADER_SIZE + |PayloadBytes(op)| }

  function EncodeOperation(op: Operation): (s: seq<byte>)
    requires Encodable(op)
    ensures |s| == RecordSize(op)
  {
    StoreU32(op.opcode) + (StoreU64(op.id) + (StoreU64(op.source) + (StoreU64(op.destination) +
    ([if op.detach then 1 else 0] + (StoreU32(|PayloadBytes(op)|) + PayloadBytes(op))))))
  }

  function EncodeOperations(ops: seq<Operation>): seq<byte>
    requires forall i :: 0 <= i < |ops| ==> Encodable(ops[i])
  {
    if ops == [] then [] else EncodeOperation(ops[0]) + EncodeOperations(ops[1..])
  }

  function EncodeFrame(transactionId: u64, ops: seq<Operation>): (s: seq<byte>)
    requires |ops| <= UINT64_MAX && forall i :: 0 <= i < |ops| ==> Encodable(ops[i])
    ensures 16 <= |s|
  {
    StoreU64(transactionId) + (StoreU64(|ops|) + EncodeOperations(ops))
  }

  /** A frame begins with the transaction and the number of records, which follow in order. */
  lemma FrameLayout(transactionId: u64, ops: seq<Operation>)
    requires AllEncodable(ops)
    ensures var s := EncodeFrame(transactionId, ops);
            && LoadU64(s) == transactionId && LoadU64(s[8..]) == |ops| && s[16..] == EncodeOperations(ops)
    ensures ops != [] ==> EncodeOperation(ops[0]) <= EncodeOperations(ops)
  {
    hide LoadU64, StoreU64, EncodeOperation;
    var records := EncodeOperations(ops);
    var t := StoreU64(|ops|) + records;
    LoadStoreU64(transactionId, t);
    LoadStoreU64(|ops|, records);
    DropConcat(StoreU64(transactionId), t);
    DropBehind(EncodeFrame(transactionId, ops), 8, StoreU64(|ops|), records);
  }

  /** How a payload reads back: a null pointer for no bytes, otherwise the document's bytes. */
  function ReadPayload(bytes: seq<byte>): Option<seq<byte>> { if bytes == [] then None else Some(bytes) }

  /** The record at the head of `s`, read field by field; 33 bytes and its payload long. */
  function DecodeOperation(s: seq<byte>): Operation
    requires RECORD_HEADER_SIZE <= |s|
    requires RECORD_HEADER_SIZE + LoadU32(s[4..][8..][8..][8..][1..]) <= |s|
  {
    var t1 := s[4..];
    var t2 := t1[8..];
    var t3 := t2[8..];
    var t4 := t3[8..];
    var t5 := t4[1..];
    Operation(LoadU32(s), LoadU64(t1), LoadU64(t2), LoadU64(t3), t4[0] != 0, ReadPayload(t5[4..][..LoadU32(t5)]))
  }

  /** An operation as it reads back: an empty document handle has become its five bytes. */
  function Normal(op: Operation): Operation { op.(payload := ReadPayload(PayloadBytes(op))) }

  function NormalAll(ops: seq<Operation>): (r: seq<Operation>)
    ensures |r| == |ops| && forall i :: 0 <= i < |ops| ==> r[i] == Normal(ops[i])
  {
    seq(|ops|, i requires 0 <= i < |ops| => Normal(ops[i]))
  }

  lemma DecodeEncodedOperation(op: Operation, rest: seq<byte>)
    requires Encodable(op)
    ensures var s := EncodeOperation(op) + rest;
            && RECORD_HEADER_SIZE + LoadU32(s[4..][8..][8..][8..][1..]) == RecordSize(op)
            && DecodeOperation(s) == Normal(op)
  {
    hide LoadU32, LoadU64, StoreU32, StoreU64, PayloadBytes, ReadPayload;
    var payload := PayloadBytes(op);
    var t6 := payload + rest;
    var t5 := StoreU32(|payload|) + t6;
    var t4 := [if op.detach then 1 else 0] + t5;
    var t3 := StoreU64(op.destination) + t4;
    var t2 := StoreU64(op.source) + t3;
    var t1 := StoreU64(op.id) + t2;
    var s := StoreU32(op.opcode) + t1;
    EncodingWithRest(op, rest);
    LoadStoreU32(op.opcode, t1);
    LoadStoreU64(op.id, t2);
    LoadStoreU64(op.source, t3);
    LoadStoreU64(op.destination, t4);
    LoadStoreU32(|payload|, t6);
    DropConcat(StoreU32(op.opcode), t1);
    DropConcat(StoreU64(op.id), t2);
    DropConcat(StoreU64(op.source), t3);
    DropConcat(StoreU64(op.destination), t4);
    DropConcat([if op.detach then 1 else 0], t5);
    DropConcat(StoreU32(|payload|), t6);
    assert t6[..|payload|] == payload;
  }

  /** Where the fields of a record stand. */
  lemma RecordLayout(op: Operation)
    requires Encodable(op)
    ensures var s := EncodeOperation(op);
            && |s| == 33 + |PayloadBytes(op)|
            && LoadU32(s) == op.opcode && LoadU64(s[4..]) == op.id
            && LoadU64(s[12..]) == op.source && LoadU64(s[20..]) == op.destination
            && s[28] == (if op.detach then 1 else 0)
            && LoadU32(s[29..]) == |PayloadBytes(op)| && s[33..] == PayloadBytes(op)
  {
    hide LoadU32, LoadU64, StoreU32, StoreU64, PayloadBytes;
    var t6 := PayloadBytes(op);
    var t5 := StoreU32(|t6|) + t6;
    var t4 := [if op.detach then 1 else 0] + t5;
    var t3 := StoreU64(op.destination) + t4;
    var t2 := StoreU64(op.source) + t3;
    var t1 := StoreU64(op.id) + t2;
    var s := EncodeOperation(op);
    LoadStoreU32(op.opcode, t1);
    LoadStoreU64(op.id, t2);
    LoadStoreU64(op.source, t3);
    LoadStoreU64(op.destination, t4);
    LoadStoreU32(|t6|, t6);
    DropConcat(StoreU32(op.opcode), t1);
    DropBehind(s, 4, StoreU64(op.id), t2);
    DropBehind(s, 12, StoreU64(op.source), t3);
    DropBehind(s, 20, StoreU64(op.destination), t4);
    DropBehind(s, 28, [if op.detach then 1 else 0], t5);
    DropBehind(s, 29, StoreU32(|t6|), t6);
  }

  lemma DropBehind(s: seq<byte>, at: nat, a: seq<byte>, b: seq<byte>)
    requires at <= |s| && s[at..] == a + b
    ensures at + |a| <= |s| && s[at + |a|..] == b
  {
    DropOfDrop(s, at, |a|);
    DropConcat(a, b);
  }

  lemma DropConcat(a: seq<byte>, b: seq<byte>)
    ensures (a + b)[|a|..] == b
  {
  }

  /** Whatever follows a record follows its last field. */
  lemma EncodingWithRest(op: Operation, rest: seq<byte>)
    requires Encodable(op)
    ensures EncodeOperation(op) + rest ==
            StoreU32(op.opcode) + (StoreU64(op.id) + (StoreU64(op.source) + (StoreU64(op.destination) +
            ([if op.detach then 1 else 0] + (StoreU32(|PayloadBytes(op)|) + (PayloadBytes(op) + rest))))))
  {
    hide StoreU32, StoreU64, PayloadBytes;
    var t5 := StoreU32(|PayloadBytes(op)|) + PayloadBytes(op);
    var t4 := [if op.detach then 1 else 0] + t5;
    var t3 := StoreU64(op.destination) + t4;
    var t2 := StoreU64(op.source) + t3;
    var t1 := StoreU64(op.id) + t2;
    ConcatAssoc(StoreU32(op.opcode), t1, rest);
    ConcatAssoc(StoreU64(op.id), t2, rest);
    ConcatAssoc(StoreU64(op.source), t3, rest);
    ConcatAssoc(StoreU64(op.destination), t4, rest);
    ConcatAssoc([if op.detach then 1 else 0], t5, rest);
    ConcatAssoc(StoreU32(|PayloadBytes(op)|), PayloadBytes(op), rest);
  }

  // ----- The log file -----

  /** The payload conversion does not change what an operation does. */
  lemma NormalAppliesAlike(g: Graph, op: Operation)
    ensures ApplyOperation(g, Normal(op)) == ApplyOperation(g, op)
  {
    hide InsertNode, InsertEdge, UpdateNode, UpdateEdge, DeleteNode, DeleteEdge;
    if op.payload.Some? {
      DocumentBytesTwice(op.payload.value);
    }
  }

  lemma DocumentBytesTwice(bson: seq<byte>)
    ensures BsonReader.DocumentBytes(bson) != []
    ensures BsonReader.DocumentBytes(BsonReader.DocumentBytes(bson)) == BsonReader.DocumentBytes(bson)
  {
  }

  lemma {:induction false} NormalFrameAppliesAlike(g: Graph, ops: seq<Operation>, n: nat)
    requires n <= |ops|
    ensures ApplyFirst(g, NormalAll(ops), n) == ApplyFirst(g, ops, n)
  {
    if n > 0 {
      hide ApplyOperation, Normal;
      NormalFrameAppliesAlike(g, ops, n - 1);
      NormalAppliesAlike(ApplyFirst(g, ops, n - 1).graph, ops[n - 1]);
    }
  }

  /** memcpy into a buffer */
  method Put(buffer: array<byte>, at: nat, bytes: seq<byte>)
    requires at + |bytes| <= buffer.Length
    modifies buffer
    ensures buffer[..at + |bytes|] == old(buffer[..at]) + bytes
  {
    forall i | 0 <= i < |bytes| {
      buffer[at + i] := bytes[i];
    }
  }

  lemma EncodeOperationsStep(ops: seq<Operation>, n: nat)
    requires (forall i :: 0 <= i < |ops| ==> Encodable(ops[i])) && n < |ops|
    ensures EncodeOperations(ops[n..]) == EncodeOperation(ops[n]) + EncodeOperations(ops[n + 1..])
  {
    assert ops[n..][1..] == ops[n + 1..];
  }

  /** The sum of the record sizes, and the two counters in front. */
  method FrameLength(ops: seq<Operation>) returns (total: nat)
    requires AllEncodable(ops)
    ensures total == 16 + |EncodeOperations(ops)|
  {
    hide EncodeOperation, PayloadBytes;
    total := 16;
    var i := 0;
    assert ops[0..] == ops;
    while i < |ops|
      invariant i <= |ops| && total + |EncodeOperations(ops[i..])| == 16 + |EncodeOperations(ops)|
    {
      EncodeOperationsStep(ops, i);
      total := total + RecordSize(ops[i]);
      i := i + 1;
    }
  }

  /** A running cursor fills exactly the buffer of that length. */
  method FillFrame(transactionId: u64, ops: seq<Operation>, total: nat) returns (frame: seq<byte>)
    requires AllEncodable(ops) && total == 16 + |EncodeOperations(ops)|
    ensures frame == EncodeFrame(transactionId, ops)
  {
    hide EncodeOperation, PayloadBytes, StoreU64;
    var buffer := new byte[total];
    ghost var whole := EncodeFrame(transactionId, ops);
    Put(buffer, 0, StoreU64(transactionId));
    Put(buffer, 8, StoreU64(|ops|));
    var cursor: nat := 16;
    var i := 0;
    assert ops[0..] == ops;
    ConcatAssoc(StoreU64(transactionId), StoreU64(|ops|), EncodeOperations(ops));
    while i < |ops|
      invariant i <= |ops| && cursor + |EncodeOperations(ops[i..])| == total == buffer.Length
      invariant whole == buffer[..cursor] + EncodeOperations(ops[i..])
    {
      EncodeOperationsStep(ops, i);
      ConcatAssoc(buffer[..cursor], EncodeOperation(ops[i]), EncodeOperations(ops[i + 1..]));
      Put(buffer, cursor, EncodeOperation(ops[i]));
      cursor := cursor + RecordSize(ops[i]);
      i := i + 1;
    }
    frame := buffer[..];
    assert buffer[..cursor] == frame;
  }

  /** The header of a log file: magic, version, and bytes that are reserved. */
  function NewHeader(): (h: seq<byte>)
    ensures |h| == WAL_HEADER_SIZE
  {
    WAL_MAGIC + (StoreU32(WAL_VERSION) + seq(52, _ => 0))
  }

  lemma NewHeaderCompatible()
    ensures CompatibleHeader(NewHeader())
  {
    hide LoadU32, StoreU32;
    var rest := StoreU32(WAL_VERSION) + seq(52, _ => 0);
    LoadStoreU32(WAL_VERSION, seq(52, _ => 0));
    DropConcat(WAL_MAGIC, rest);
    assert (WAL_MAGIC + rest)[..8] == WAL_MAGIC;
  }

  predicate CompatibleHeader(h: seq<byte>)
    requires |h| == WAL_HEADER_SIZE
  {
    h[..8] == WAL_MAGIC && LoadU32(h[8..]) == WAL_VERSION
  }

  /** What linklet_wal_open asks of an existing file. */
  predicate Compatible(bytes: seq<byte>) { WAL_HEADER_SIZE <= |bytes| && CompatibleHeader(bytes[..WAL_HEADER_SIZE]) }

  class Log {
    var disk: seq<byte>

    ghost predicate Valid()
      reads this
    {
      Compatible(disk)
    }

    /** Nothing to replay. */
    ghost predicate IsClear()
      reads this
    {
      |disk| == WAL_HEADER_SIZE
    }

    ghost predicate Holds(transactionId: u64, ops: seq<Operation>)
      reads this
    {
      && AllEncodable(ops) && WAL_HEADER_SIZE <= |disk|
      && disk[WAL_HEADER_SIZE..] == EncodeFrame(transactionId, ops)
    }

    constructor Create()
      ensures Valid() && IsClear()
    {
      hide CompatibleHeader, NewHeader;
      disk := NewHeader();
      new;
      NewHeaderCompatible();
      assert disk[..WAL_HEADER_SIZE] == disk;
    }

    /** A log over a file already checked. */
    constructor Attach(bytes: seq<byte>)
      ensures disk == bytes
    {
      disk := bytes;
    }

    /** linklet_wal_write_frame: the sizes are summed first, the buffer filled by a running cursor. */
    method WriteFrame(transactionId: u64, ops: seq<Operation>)
      requires Valid() && AllEncodable(ops)
      modifies this
      ensures Valid() && Holds(transactionId, ops) && disk[..WAL_HEADER_SIZE] == old(disk[..WAL_HEADER_SIZE])
    {
      hide CompatibleHeader;
      var total := FrameLength(ops);
      var frame := FillFrame(transactionId, ops, total);
      disk := disk[..WAL_HEADER_SIZE] + frame;
    }

    /** The decoding loop of a replay. */
    method ReadFrame(ghost transactionId: u64, ghost written: seq<Operation>) returns (ops: seq<Operation>)
      requires Holds(transactionId, written)
      ensures ops == NormalAll(written)
    {
      hide EncodeOperation, DecodeOperation, PayloadBytes, StoreU64, LoadU64, Normal;
      var buffer := disk[WAL_HEADER_SIZE..];
      ghost var tail := StoreU64(|written|) + EncodeOperations(written);
      assert buffer[8..] == tail;
      LoadStoreU64(|written|, EncodeOperations(written));
      var count := LoadU64(buffer[8..]);
      var rest := buffer[8..][8..];
      assert rest == EncodeOperations(written);
      ops := [];
      while |ops| < count
        invariant |ops| <= count == |written|
        invariant rest == EncodeOperations(written[|ops|..])
        invariant ops == NormalAll(written)[..|ops|]
        decreases count - |ops|
      {
        ghost var i := |ops|;
        EncodeOperationsStep(written, i);
        DecodeEncodedOperation(written[i], EncodeOperations(written[i + 1..]));
        var size := LoadU32(rest[4..][8..][8..][8..][1..]);
        ops := ops + [DecodeOperation(rest)];
        rest := rest[RECORD_HEADER_SIZE + size..];
      }
    }

    /** linklet_wal_clear */
    method Clear()
      requires Valid()
      modifies this
      ensures Valid() && IsClear() && disk == old(disk[..WAL_HEADER_SIZE])
    {
      hide CompatibleHeader;
      ghost var header := disk[..WAL_HEADER_SIZE];
      disk := disk[..WAL_HEADER_SIZE];
      assert header[..WAL_HEADER_SIZE] == header;
    }
  }

  /** linklet_wal_open of an existing file. */
  method OpenLog(bytes: seq<byte>) returns (ok: bool, log: Log)
    ensures fresh(log) && log.disk == bytes
    ensures ok <==> Compatible(bytes)
  {
    log := new Log.Attach(bytes);
    if |bytes| < WAL_HEADER_SIZE {
      return false, log;
    }
    var header := bytes[..WAL_HEADER_SIZE];
    ok := header[..8] == WAL_MAGIC && LoadU32(header[8..]) == WAL_VERSION;
  }

  // ----- Applying a frame to the store -----

  method ApplyInsert(store: GraphStore.Store, op: Operation) returns (ok: bool)
    requires store.Valid() && (op.opcode == INSERT_NODE || op.opcode == INSERT_EDGE)
    modifies store, store.nodes, store.edges
    ensures store.Valid() && (store.Room() ==> old(store.Room()))
    ensures var r := ApplyOperation(old(store.Graph()), op);
            && (ok ==> r.Ok() && store.Graph() == r.graph)
            && (!ok ==> store.Graph() == r.graph || store.Graph() == old(store.Graph()))
            && (old(store.Room()) && r.Ok() ==> ok)
  {
    hide GraphStore.Store.Valid, GraphStore.Store.Graph, GraphStore.Store.Room, InsertNode, InsertEdge;
    hide BsonReader.DocumentBytes;
    if op.opcode == INSERT_NODE {
      var present := store.NodeExists(op.id, store.Graph());
      if present {
        return true;
      }
      if op.payload == None {
        return false;
      }
      var given;
      ok, given := store.InsertNode(op.payload.value);
      ok := ok && given == op.id;
    } else {
      var present := store.EdgeExists(op.id, store.Graph());
      if present {
        return true;
      }
      if op.payload == None {
        return false;
      }
      var given;
      ok, given := store.InsertEdge(op.source, op.destination, op.payload.value);
      ok := ok && given == op.id;
    }
  }

  method ApplyUpdate(store: GraphStore.Store, op: Operation) returns (ok: bool)
    requires store.Valid() && (op.opcode == UPDATE_NODE || op.opcode == UPDATE_EDGE)
    modifies store, store.nodes, store.edges
    ensures store.Valid() && (store.Room() ==> old(store.Room()))
    ensures var r := ApplyOperation(old(store.Graph()), op);
            && (ok ==> r.Ok() && store.Graph() == r.graph)
            && (!ok ==> store.Graph() == r.graph || store.Graph() == old(store.Graph()))
            && (old(store.Room()) && r.Ok() ==> ok)
  {
    hide GraphStore.Store.Valid, GraphStore.Store.Graph, GraphStore.Store.Room, UpdateNode, UpdateEdge;
    hide BsonReader.DocumentBytes;
    if op.opcode == UPDATE_NODE {
      var present := store.NodeExists(op.id, store.Graph());
      if !present {
        return true;
      }
      if op.payload == None {
        return false;
      }
      ok := store.UpdateNode(op.id, op.payload.value);
    } else {
      var present := store.EdgeExists(op.id, store.Graph());
      if !present {
        return true;
      }
      if op.payload == None {
        return false;
      }
      ok := store.UpdateEdge(op.id, op.payload.value);
    }
  }

  method ApplyDelete(store: GraphStore.Store, op: Operation) returns (ok: bool)
    requires store.Valid() && (op.opcode == DELETE_NODE || op.opcode == DELETE_EDGE)
    modifies store, store.nodes, store.edges
    ensures store.Valid() && (store.Room() ==> old(store.Room()))
    ensures var r := ApplyOperation(old(store.Graph()), op);
            && ok == r.Ok() && store.Graph() == r.graph
  {
    hide GraphStore.Store.Valid, GraphStore.Store.Graph, GraphStore.Store.Room, DeleteNode, DeleteEdge;
    if op.opcode == DELETE_NODE {
      var present := store.NodeExists(op.id, store.Graph());
      if !present {
        return true;
      }
      ok := store.DeleteNode(op.id, op.detach);
    } else {
      var present := store.EdgeExists(op.id, store.Graph());
      if !present {
        return true;
      }
      ok := store.DeleteEdge(op.id);
    }
  }

  /** One round of the apply loop does to the store what `ApplyOperation` does to its graph. */
  method ApplyOne(store: GraphStore.Store, op: Operation) returns (ok: bool)
    requires store.Valid()
    modifies store, store.nodes, store.edges
    ensures store.Valid() && (store.Room() ==> old(store.Room()))
    ensures var r := ApplyOperation(old(store.Graph()), op);
            && (ok ==> r.Ok() && store.Graph() == r.graph)
            && (!ok ==> store.Graph() == r.graph || store.Graph() == old(store.Graph()))
            && (old(store.Room()) && r.Ok() ==> ok)
  {
    hide GraphStore.Store.Valid, GraphStore.Store.Graph, GraphStore.Store.Room, BsonReader.DocumentBytes;
    hide InsertNode, InsertEdge, UpdateNode, UpdateEdge, DeleteNode, DeleteEdge;
    if op.opcode == INSERT_NODE || op.opcode == INSERT_EDGE {
      ok := ApplyInsert(store, op);
    } else if op.opcode == UPDATE_NODE || op.opcode == UPDATE_EDGE {
      ok := ApplyUpdate(store, op);
    } else if op.opcode == DELETE_NODE || op.opcode == DELETE_EDGE {
      ok := ApplyDelete(store, op);
    } else {
      ok := false;
    }
  }

  /**
   * linklet_wal_apply. As long as the files have room it succeeds exactly when every operation
   * does; a failure leaves the store at a state some prefix of the operations leads to, as a crash
   * would.
   */
  method Apply(store: GraphStore.Store, ops: seq<Operation>) returns (ok: bool, ghost done: nat)
    requires store.Valid()
    modifies store, store.nodes, store.edges
    ensures store.Valid() && done <= |ops| && (store.Room() ==> old(store.Room()))
    ensures ok ==> ApplyAll(old(store.Graph()), ops) == Applied(store.Graph(), None)
    ensures !ok ==> ApplyFirst(old(store.Graph()), ops, done).graph == store.Graph()
    ensures store.Room() ==> (ok <==> ApplyAll(old(store.Graph()), ops).Ok())
  {
    hide GraphStore.Store.Valid, GraphStore.Store.Graph, GraphStore.Store.Room, ApplyOperation;
    var i := 0;
    ok := true;
    ghost var g := store.Graph();
    while i < |ops|
      invariant i <= |ops| && store.Valid() && (store.Room() ==> old(store.Room()))
      invariant ApplyFirst(g, ops, i) == Applied(store.Graph(), None)
    {
      ghost var before := store.Graph();
      ok := ApplyOne(store, ops[i]);
      if !ok {
        done := if store.Graph() == before then i else i + 1;
        if !ApplyFirst(g, ops, i + 1).Ok() {
          FailureSticks(g, ops, i + 1, |ops|);
        }
        return false, done;
      }
      i := i + 1;
    }
    return true, |ops|;
  }

  /**
   * linklet_wal_replay: nothing without a frame; otherwise the frame is applied, then cleared. A
   * failure keeps the frame, and the store is where a prefix of it leads.
   */
  method Replay(log: Log, store: GraphStore.Store, ghost transactionId: u64, ghost ops: seq<Operation>)
    returns (ok: bool, ghost done: nat)
    requires log.Valid() && store.Valid() && (log.IsClear() || log.Holds(transactionId, ops))
    modifies log, store, store.nodes, store.edges
    ensures log.Valid() && store.Valid() && done <= |ops|
    ensures old(log.IsClear()) ==> ok && log.IsClear() && store.Graph() == old(store.Graph())
    ensures !old(log.IsClear()) && ok ==>
              log.IsClear() && ApplyAll(old(store.Graph()), ops) == Applied(store.Graph(), None)
    ensures !ok ==> log.disk == old(log.disk) && ApplyFirst(old(store.Graph()), ops, done).graph == store.Graph()
    ensures !old(log.IsClear()) && store.Room() ==> (ok <==> ApplyAll(old(store.Graph()), ops).Ok())
  {
    hide GraphStore.Store.Valid, GraphStore.Store.Graph, GraphStore.Store.Room, ApplyFirst, EncodeFrame;
    if |log.disk| <= WAL_HEADER_SIZE {
      return true, 0;
    }
    var operations := log.ReadFrame(transactionId, ops);
    ghost var g := store.Graph();
    ok, done := Apply(store, operations);
    NormalFrameAppliesAlike(g, ops, |ops|);
    NormalFrameAppliesAlike(g, ops, done);
    if ok {
      log.Clear();
    }
  }
}
