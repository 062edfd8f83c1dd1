/** Opening a database: the files of its store, then the log, and the replay of what the log holds. */
module Database {
  import opened Bytes
  import opened PropertyGraph
  import opened RedoLog
  import opened Recovery
  import opened GraphStore
  import opened WriteAheadLog

  /**
   * The log holds the frame of a commit built at `base`, and crashes and failed attempts to open
   * have left the store where `crashes` says.
   */
  ghost predicate Pending(log: Log, store: Store, transactionId: u64, base: Graph, ops: seq<Operation>,
                          crashes: seq<nat>)
    reads log, store, store.nodes, store.edges
  {
    log.Holds(transactionId, ops) && WellFormed(base, ops) && store.Represents(Interrupted(base, ops, crashes))
  }

  /**
   * The replay at the end of linklet_database_open, on an interrupted commit: when it succeeds the
   * store has exactly the committed transaction and the log is clear. Unless an inserted edge
   * touches a deleted node, and as long as the files have room, it succeeds exactly when the commit
   * would have. A failed open leaves things so that opening again is covered as well.
   */
  method ReplayPending(log: Log, store: Store, ghost transactionId: u64, ghost base: Graph, ghost ops: seq<Operation>,
                       ghost crashes: seq<nat>)
    returns (ok: bool, ghost crashes': seq<nat>)
    requires log.Valid() && Pending(log, store, transactionId, base, ops, crashes)
    modifies log, store, store.nodes, store.edges
    ensures log.Valid() && store.Valid()
    ensures ok ==> log.IsClear() && ApplyAll(base, ops) == Applied(store.Graph(), None)
    ensures !ok ==> Pending(log, store, transactionId, base, ops, crashes')
    ensures Undisturbed(base, ops) && store.Room() ==> (ok <==> Clean(base, ops))
  {
    hide Store.Valid, Store.Graph, Store.Room, ApplyFirst, Interrupted, WellFormed, Undisturbed, EncodeFrame;
    hide Compatible;
    ghost var done;
    RecoveryNeverWrong(base, ops, crashes);
    if Undisturbed(base, ops) {
      CrashesChangeNothing(base, ops, crashes);
    }
    ok, done := Replay(log, store, transactionId, ops);
    InterruptedAgain(base, ops, crashes, done);
    crashes' := crashes + [done];
  }

  /**
   * linklet_database_open on the bytes of the four files a database leaves behind, after a crash in
   * the middle of a commit or of an earlier open: the checks on every file pass, unless an object
   * file has too many pages, and the replay then brings the store up to date.
   */
  method Open(log: Log, store: Store, ghost transactionId: u64, ghost base: Graph, ghost ops: seq<Operation>,
              ghost crashes: seq<nat>)
    returns (ok: bool, againLog: Log, again: Store, ghost crashes': seq<nat>)
    requires log.Valid() && Pending(log, store, transactionId, base, ops, crashes)
    ensures fresh(againLog) && fresh(again) && fresh(again.nodes) && fresh(again.edges)
    ensures ok ==> again.Valid() && againLog.IsClear() && ApplyAll(base, ops) == Applied(again.Graph(), None)
    ensures !Reopens(store) ==> !ok
    ensures Reopens(store) && !ok ==> againLog.Valid() && Pending(againLog, again, transactionId, base, ops, crashes')
    ensures Reopens(store) && Undisturbed(base, ops) && again.Room() ==> (ok <==> Clean(base, ops))
  {
    hide Store.Valid, Store.Graph, Store.Room, ApplyFirst, Interrupted, WellFormed, Undisturbed, EncodeFrame;
    hide Compatible;
    crashes' := crashes;
    var compatible;
    ok, again := GraphStore.Reopen(store);
    compatible, againLog := OpenLog(log.disk);
    if ok {
      ok, crashes' := ReplayPending(againLog, again, transactionId, base, ops, crashes);
    }
  }

  /** The same when there is nothing to replay. */
  method OpenClear(log: Log, store: Store) returns (ok: bool, againLog: Log, again: Store)
    requires log.Valid() && log.IsClear() && store.Valid()
    ensures fresh(againLog) && fresh(again) && fresh(again.nodes) && fresh(again.edges)
    ensures ok <==> Reopens(store)
    ensures ok ==> againLog.Valid() && againLog.IsClear() && again.Represents(store.Graph())
  {
    hide Store.Valid, Store.Graph, Store.Room, EncodeFrame, Compatible;
    var compatible;
    ghost var done;
    ok, again := GraphStore.Reopen(store);
    compatible, againLog := OpenLog(log.disk);
    if ok {
      ok, done := Replay(againLog, again, 0, []);
    }
  }
}
