# LinkletDB, verified

A Dafny model of the core of LinkletDB, an embedded graph database written in C, with proofs of what that core is for. Four connected parts are modelled, each in the form its C code has: classes and loops where the code updates buffers, files and cursors, functions where it computes.

**Documents** (`Bytes`, `Utf8`, `BsonFormat`, `BsonValidator`, `BsonReader`, `BsonWriter`, `BsonMerge`). The in-place writer, the recursive validator and the iterator walk the same bytes. The validator accepts exactly the encodings of lists of valid elements; the iterator visits exactly the elements the validator checked; every typed append of a sound value keeps a document valid and adds exactly one element. Merging is associative and idempotent down to the bytes.

**Storage** (`PageLayout`, `ObjectImage`, `PagedObjectFile`, `PageLimit`, `PropertyGraph`, `Connectivity`, `GraphStore`). An object file is a byte sequence of 64 KiB pages: slot directories grow up, payloads grow down, and the slot extents tile the rest of the page. The methods refine a map from ids to documents, and opening the bytes again passes every check and rebuilds the same index. Two object files and a file of edge endpoints make a store that refines a property graph without dangling edges.

**Log and transactions** (`RedoLog`, `Recovery`, `CrashMachine`, `WriteAheadLog`, `Matching`, `Execution`, `Transaction`, `CommitEffect`, `SingleCall`, `Database`, `Witnesses`). A commit resolves its matches against the store as it was, predicts the ids of its inserts, writes one frame, applies it and clears it; opening the database replays a frame that is left. The ids predicted are the ids assigned, and what it applies to is the calls taking effect one after the other, first call first. Recovery is never wrong: after any crashes, in the commit and in replays, a replay that completes ends in the graph of the uninterrupted commit. And it always has the outcome of that commit, success or failure, as long as no call of the transaction inserts an edge at a node another call deletes; for transactions that apply cleanly that condition is exact. A step machine states safety over all runs of commits, failed ones included, crashes, and statements outside transactions, with the exact condition under which a statement beside a failed frame is safe.

**Queries and parsing** (`Matching`, `Reachability`, `ExpressionParser`, `StringLiteral`, `Lexer`, `Spellings`, `TokenWindow`). Pattern matching is its relational definition; the two-frontier search decides bounded walks; precedence climbing parses a token list to the one expression it can stand for; quoted literals round-trip; the compacting look-ahead window is the plain token stream.

## What was found

- `append_page` (storage/paged_object_file.c:120) lets the page count reach 2^32 and `linklet_object_file_open` (line 232) refuses it: reopening succeeds exactly when the count is at most 2^32 - 1 (`PagedObjectFile.Reopen`). 2^32 inserts of a document that fills a page, all successful, make a file that cannot be opened again (`PageLimit.FillBeyondTheLimit`).
- A frame that inserts an edge at a node it also deletes cannot be replayed once the deletion is done, so a crash before the log is cleared makes the next open and every one after it fail (`Recovery.RecoveryCanFail`, and `Witnesses.TransactionCanBlock` for the calls whose frame it is; the exact condition is `Transaction.TransactionRecoverableIff`).
- A commit that fails leaves its frame in the log. Unless another commit overwrites it or a statement changes what it does, the database cannot be opened again: a transaction with a plain DELETE of a node that has an edge is enough (`Witnesses.FailedCommitBlocks`).
- A statement outside a transaction that runs while such a frame is in the log changes what replaying the frame does. Deleting the edge in the example lets the next open carry out the deletion that was reported to have failed (`Witnesses.RevivedFrame`); in another run each open stores an uncommitted node once more (`Witnesses.StaleFrame`). Such a statement is safe exactly when every operation of the frame, up to the first refused, leaves the resulting graph alone (`CrashMachine.StatementSafeIff`), and with only such statements every run is safe (`CrashMachine.RunsAreSafe`).
- The look-ahead window has eight slots and moves down every fourth token. Looking four tokens ahead always stays inside; looking five ahead does exactly unless one less than a multiple of four tokens have been consumed (`TokenWindow.Window.FourAhead`). `create_is_graph_type` (parser/parser.c:631-650) looks past the slots exactly at a CREATE OR REPLACE PROPERTY GRAPH whose CREATE is such a token (`TokenWindow.LooksPastIff`), as in RETURN 1 NEXT CREATE OR REPLACE PROPERTY GRAPH g (`TokenWindow.CreateLooksPast`).
- UPDATE in a transaction stores the SET payload in place of the object, autocommit stores the merge; the two agree exactly when the payload has every key of every matched object (`SingleCall.UpdateAgreesIff`, `UpdateCanDiffer`).
- The UTF-8 checker refuses the well-formed sequences of U+20000 to U+3FFFF, those with lead byte F0 and second byte A0 to BF, and agrees with section 3 of RFC 3629 on everything else (`Utf8.AcceptsExactly`, `RefusesWellFormed`).

## Assumptions

Each write of a log frame, each clearing of the log and each single store operation is one step that a crash does not split, and input and output do not fail. Files are byte sequences that can be resized, read and written; structures are their fields in order, little-endian. Documents and lists are owned values, allocation succeeds. Integer widths are those of the C types: byte, `u32` and `u64` are subset types, counters and sizes that a file or array bounds are `nat` with the C limit tested where the C code tests it.

## Model

| member | source | states |
|---|---|---|
| Bytes.LoadStoreU32 | bson/bson_internal.h:18-27 | A 32-bit word stored little-endian loads back, whatever follows it. |
| Bytes.StoreLoadU32 | bson/bson_internal.h:18-27 | Storing what was loaded gives the four bytes back, so the encoding of a length is unique. |
| Bytes.LoadStoreU64 | bson/bson_internal.h:29-36 | The same for 64-bit words. |
| Bytes.LoadIsLittleEndian | bson/bson_internal.h:18-36 | Words are read with the least significant byte first. |
| Utf8.Validate | bson/bson.c:20-72 | The checking loop decides acceptance of the whole byte string. |
| Utf8.AcceptsText | bson/bson.c:20-72 | The encoding of a text is accepted if and only if the text has no code point in U+20000..U+3FFFF. |
| Utf8.AcceptsExactly | bson/bson.c:20-72 | A byte string is accepted if and only if it is the encoding (section 3 of RFC 3629) of some text without those code points. |
| Utf8.RefusesWellFormed | bson/bson.c:51-56 | A concrete well-formed text that is refused. |
| BsonFormat.DecodeEncodedElement | bson/bson_reader.c:13-51 | Decoding at an encoded element followed by anything gives back that element. |
| BsonFormat.ElementsOfEncoding | bson/bson_reader.c:53-99 | Walking an encoded list gives the list back, and stops where it ends. |
| BsonFormat.ValidRangeDetermined | bson/bson.c:448-542 | A range the validator accepts at some depth is the encoding of the elements it iterates to, all of them valid there. |
| BsonFormat.ValidDocumentDetermined | bson/bson.c:448-561 | Validation implies complete iteration: the iterator's elements are the validator's, and with length and terminator they are every byte. |
| BsonFormat.ValidDocumentExactly | bson/bson.c:544-561 | A byte string validates if and only if it is the encoding of some list of valid elements. |
| BsonFormat.ElementsDetermineDocument | bson/bson.c:544-561 | Two valid documents with the same elements are the same bytes. |
| BsonFormat.FixedSizes | bson/bson.c:74-187 | The sizes of the value types of fixed width, by type number; a value cut short is refused. |
| BsonFormat.PrefixedSizes | bson/bson.c:74-187 | The sizes of strings, documents, binaries, pointers and code with scope, from the length in front. |
| BsonFormat.NestingLimit | bson/bson.c:448-460 | Documents nested in each other are valid up to exactly 201 levels, the outermost counted. |
| BsonFormat.DecimalSpells | bson/bson.c:505-515 | The key of an array element is its index in decimal digits, most significant first, without a leading zero. |
| BsonFormat.DecimalIsTheSpelling | bson/bson.c:505-515 | It is the only such text: a key is the expected one exactly when it spells the index. |
| BsonFormat.RangeExactly | bson/bson.c:448-542 | A document is accepted if and only if it is not nested too deeply, every element has a type of the format, a nonempty key of accepted text and a valid value, and the keys of an array spell 0, 1, 2 and so on. |
| BsonValidator.ValidateString | bson/bson.c:329-355 | The string check decides length, terminator and UTF-8. |
| BsonValidator.ValidateCodeWithScope | bson/bson.c:360-414 | The check of code with scope decides the rule, the scope one level deeper. |
| BsonValidator.ValidateValue | bson/bson.c:416-446 | The dispatch on the type decides the rule for the value. |
| BsonValidator.ValidateRange | bson/bson.c:448-542 | The recursive offset walk, with array keys and depth, decides the grammar of a range. |
| BsonValidator.Validate | bson/bson.c:544-561 | The validator decides `ValidDocument`. |
| BsonReader.BsonIterator.DecodeAt | bson/bson_reader.c:13-51 | Decoding at an offset succeeds exactly where an element starts, and otherwise changes nothing. |
| BsonReader.BsonIterator.Init | bson/bson_reader.c:53-85 | A fresh iterator has all elements of the document ahead, and fails exactly when there are none. |
| BsonReader.BsonIterator.Next | bson/bson_reader.c:87-99 | A step drops exactly the current element, to a strictly larger offset. |
| BsonReader.WalkStopsAtTerminator | bson/bson_reader.c:87-99 | On a valid document the walk stops only at the final terminator, never at a decode failure. |
| BsonReader.Find | bson/bson_reader.c:444-460 | Finds the first element with the key, if and only if there is one. |
| BsonReader.FirstIsFirst | bson/bson_reader.c:444-460 | What a look-up finds stands before every other element with the key. |
| BsonReader.CountKeys | bson/bson_reader.c:467-477 | Counts the elements of the walk. |
| BsonWriter.BsonBuffer.ReserveTo | bson/bson_writer.c:15-44 | Makes room within the size limit, keeps the contents, fails exactly for static buffers and sizes over INT32_MAX. |
| BsonWriter.BsonBuffer.AppendValueBegin | bson/bson_writer.c:46-88 | When it succeeds, and the length, type, key and terminator it then leaves in the buffer. |
| BsonWriter.BsonBuffer.AppendElement | bson/bson_writer.c:46-98 | Begin and fill together append one element, or leave the contents as they were. |
| BsonWriter.BsonBuffer.Append | bson/bson_writer.c:90-380 | Every typed append: exactly when it succeeds, and the document bytes then. |
| BsonWriter.BsonBuffer.AppendIterator | bson/bson_writer.c:382-399 | Copies the element an iterator stands on. |
| BsonWriter.BsonBuffer.AppendNestedBegin | bson/bson_writer.c:430-443 | Opens a nested value: an element without value bytes, and an empty child. |
| BsonWriter.BsonBuffer.AppendNestedEnd | bson/bson_writer.c:445-476 | Closes it: the child's bytes in front of the parent's terminator, lengths adjusted. |
| BsonWriter.BsonBuffer.AppendToArray | bson/bson_writer.c:497-577 | An array append uses the number of elements so far as its key. |
| BsonWriter.BeginEndIsAppend | bson/bson_writer.c:430-476 | Opening and closing a nested value is one append of the child's bytes. |
| BsonWriter.ScalarsReadBack | bson/bson_writer.c:90-98 | Doubles (as bit patterns), integers, dates and timestamps are stored so that the little-endian loads give them back, sign included. |
| BsonWriter.ScalarTypes | bson/bson_writer.c:90-380 | The type numbers of the scalars. |
| BsonWriter.ValueParts | bson/bson_writer.c:90-380 | Where text, subtype, bytes, pattern, options, object id and scope stand in the stored values. |
| BsonWriter.ValueIsValid | bson/bson_writer.c:90-380 | The bytes stored for a sound value of any type are sized and validated as such a value. |
| BsonWriter.ValuesExactly | bson/bson.c:329-446 | A sized string or pointer is valid if and only if it is the stored form of a text the checker accepts, a document if and only if it is one for its depth, and all other scalars are. |
| BsonWriter.CodeWithScopeExactly | bson/bson.c:360-414 | Code with scope is valid if and only if it is the stored form of an accepted text and a document one level deeper, with exact lengths. |
| BsonWriter.AppendKeepsValid | bson/bson_writer.c:46-88 | Appending a valid element to a valid document, at any depth up to 200, gives a valid document with the old elements and the new one. |
| BsonWriter.TypedAppendKeepsValid | bson/bson_writer.c:90-380 | The same for every typed append of a sound value. |
| BsonWriter.ArrayAppendKeepsValid | bson/bson_writer.c:497-577 | The same for arrays, whose keys stay sequential. |
| BsonWriter.DecimalIsGoodKey | bson/bson_writer.c:497-501 | The generated array key is a zero-terminated, well-formed, nonempty key of digits. |
| BsonMerge.CopyElements | bson/bson_writer.c:401-428 | One do-while loop of the merge: the elements whose key the patch lacks, in order, or all of them. |
| BsonMerge.Merge | bson/bson_writer.c:401-428 | Merging succeeds exactly when the merged list is writable, and then holds the kept elements followed by the patch. |
| BsonMerge.MergeOrder | bson/bson_writer.c:401-428 | A merge is the elements of the original whose key the patch lacks, in their order and all of them, followed by the patch. |
| BsonMerge.MergeLookup | bson/bson_writer.c:401-428 | Looking a key up in a merge prefers the patch. |
| BsonMerge.MergeAssociative | bson/bson_writer.c:401-428 | Merging is associative, element for element. |
| BsonMerge.MergeIdempotent | bson/bson_writer.c:401-428 | Merging the same patch twice is merging it once. |
| BsonMerge.MergeKeepsValid | bson/bson_writer.c:401-428 | The merge of two valid documents within the size limit is valid, with exactly the merged elements. |
| BsonMerge.ReplacementIsMergeIff | execution/executor.c:236-249 | A merge is just the patch if and only if the patch has every key of the original. |
| PageLayout.DecodeEncodedHeader | storage/paged_object_file.c:19-26 | A page header reads back as written. |
| PageLayout.HeaderLayout | storage/paged_object_file.c:19-26 | The byte offsets of the fields of a page header. |
| PageLayout.DecodeEncodedSlot | storage/paged_object_file.c:28-34 | A slot reads back as written. |
| PageLayout.SlotLayout | storage/paged_object_file.c:28-34 | The byte offsets of the fields of a slot. |
| PageLayout.ReadableMeans | storage/paged_object_file.c:106-117 | The checks on a page header, on the bytes of the page. |
| PageLayout.FitsExactly | storage/paged_object_file.c:144-161 | An object fits a page exactly when the directory with one more slot and the payload do not meet. |
| PageLayout.TilesDisjoint | storage/paged_object_file.c:144-207 | Slot extents, active or deleted, do not overlap. |
| PageLayout.TilesInBounds | storage/paged_object_file.c:144-207 | Every extent lies between the free end and the end of the page. |
| PageLayout.PlacedOk | storage/paged_object_file.c:169-207 | Placing an object keeps the page in order, adds one slot with the document and keeps all others. |
| PageLayout.RewrittenOk | storage/paged_object_file.c:395-404 | Rewriting within the capacity keeps the page in order and changes no other slot or payload. |
| PageLayout.MarkedDeletedOk | storage/paged_object_file.c:363-374 | Marking a slot deleted keeps the tiling and all payloads. |
| ObjectImage.InsertSound | storage/paged_object_file.c:305-334 | An insert keeps pages and index in agreement and adds exactly one object. |
| ObjectImage.RewriteSound | storage/paged_object_file.c:395-404 | The in-place update keeps them in agreement and changes exactly one object. |
| ObjectImage.RelocateSound | storage/paged_object_file.c:406-413 | The moving update, new slot first and old one retired, ends with one active slot for the id and the new document. |
| ObjectImage.DeleteSound | storage/paged_object_file.c:416-428 | A deletion leaves no active slot for the id and every other object as it was. |
| ObjectImage.ObjectsValid | storage/paged_object_file.c:305-334 | Every stored document is valid. |
| PagedObjectFile.DecodeEncodedFileHeader | storage/paged_object_file.c:102-104 | The file header reads back as written. |
| PagedObjectFile.FileHeaderLayout | storage/paged_object_file.c:102-104 | The byte offsets of the fields of the file header. |
| PagedObjectFile.HeaderChecks | storage/paged_object_file.c:224-243 | The checks on header and size, on the bytes of the file. |
| PagedObjectFile.SlotChecks | storage/paged_object_file.c:251-287 | The checks on a slot and its document, on the bytes of the page. |
| PagedObjectFile.ObjectFile.Initialize | storage/paged_object_file.c:209-222 | A new file is in order and empty. |
| PagedObjectFile.ObjectFile.EnsureLocationCapacity | storage/paged_object_file.c:52-74 | The index grows to the size asked for, refused exactly above 2^63 entries; old entries stay, new ones are dead. |
| PagedObjectFile.ObjectFile.AppendPage | storage/paged_object_file.c:119-142 | A new empty page behind the others, no object changed, failing exactly at the limit. |
| PagedObjectFile.ObjectFile.FindPageForObject | storage/paged_object_file.c:144-167 | The first page with room, a new one only when none has. |
| PagedObjectFile.ObjectFile.PlaceObject | storage/paged_object_file.c:169-207 | Payload, slot and header writes together are one placement in that page. |
| PagedObjectFile.ObjectFile.Insert | storage/paged_object_file.c:305-334 | The document under the next id, no other object touched; exactly which documents are refused while the file can grow. |
| PagedObjectFile.ObjectFile.Exists | storage/paged_object_file.c:430-432 | Whether the id is live. |
| PagedObjectFile.ObjectFile.Read | storage/paged_object_file.c:336-361 | The last document written for the id, exactly for live ids. |
| PagedObjectFile.ObjectFile.MarkLocationDeleted | storage/paged_object_file.c:363-374 | The slot's flag, and nothing else, changes. |
| PagedObjectFile.ObjectFile.Update | storage/paged_object_file.c:376-414 | The new document under the same id, no other object touched or moved: in place, and always successful, exactly when it fits the slot, and otherwise moved. |
| PagedObjectFile.ObjectFile.Delete | storage/paged_object_file.c:416-428 | The id is gone, no other object touched. |
| PagedObjectFile.ObjectFile.IndexSlot | storage/paged_object_file.c:251-287 | The checks on one slot, and its entry in the index. |
| PagedObjectFile.ObjectFile.Open | storage/paged_object_file.c:224-295 | Opening accepts exactly the byte strings that meet every check, and rebuilds a complete index. |
| PagedObjectFile.ReopenAccepts | storage/paged_object_file.c:224-295 | The bytes of a file in order pass every check if and only if the page count is one that open allows. |
| PagedObjectFile.ReopenAgrees | storage/paged_object_file.c:224-295 | The rebuilt index has the same live ids at the same places and the same documents. |
| PagedObjectFile.Reopen | storage/paged_object_file.c:224-295 | Reopening after any run gives the same header, objects and live locations. |
| PagedObjectFile.PageBeyondTheLimit | storage/paged_object_file.c:119-123 | A file of 2^32 - 1 pages takes one more and is then refused. |
| PageLimit.FillBeyondTheLimit | storage/paged_object_file.c:305-334 | 2^32 inserts, all successful, make such a file: every document is stored and opening is refused. |
| PropertyGraph.InsertsEvolve | storage/graph_store.c:337-381 | Inserts keep the graph free of dangling edges and hand out fresh ids. |
| PropertyGraph.InsertsExactly | storage/graph_store.c:337-381 | When an insert is possible; it adds one object under the next id, with the endpoints given, and changes no other. |
| PropertyGraph.UpdatesExactly | storage/graph_store.c:383-397 | When an update is possible; it replaces one document and moves neither endpoints nor counters. |
| PropertyGraph.DeletesEvolve | storage/graph_store.c:399-448 | Deletions keep it so, and revive nothing. |
| PropertyGraph.DeleteNodeExactly | storage/graph_store.c:417-448 | A DETACH deletion removes exactly the node and its incident edges, a plain one the node alone. |
| Connectivity.OpenConnectivity | storage/graph_store.c:254-264 | The header checks decide which files are accepted, and the counts and records mapped are those of the bytes. |
| Connectivity.FileReadsBack | storage/graph_store.c:103-123 | A file of counts and records is accepted and reads back. |
| Connectivity.FileLayout | storage/graph_store.c:103-123 | The byte offsets of the header fields and of the endpoints of every edge. |
| GraphStore.Create | storage/graph_store.c:103-123 | A new store is in order, stands for the empty graph and has room for the edges asked for, 16 by default; refused exactly when its file would be too large. |
| GraphStore.Store.GraphInOrder | storage/graph_store.c:153-174 | Graph integrity in every valid store: ids below the next ids, live edges between live nodes. |
| GraphStore.Store.DocumentsValid | storage/graph_store.c:337-397 | Every stored node and edge document is valid. |
| GraphStore.Store.InsertNode | storage/graph_store.c:337-351 | One new node under the next id, or no change. |
| GraphStore.Store.GrowConnectivity | storage/graph_store.c:125-151 | The endpoint array doubles, from 16, and keeps its records; within the size limits it does not fail. |
| GraphStore.Store.InsertEdge | storage/graph_store.c:353-381 | One new edge between live nodes under the next id, also across growth, or no change. |
| GraphStore.Store.UpdateNode | storage/graph_store.c:383-389 | The node's document, and nothing else. |
| GraphStore.Store.UpdateEdge | storage/graph_store.c:391-397 | The edge's document, and neither its endpoints nor anything else. |
| GraphStore.Store.DeleteEdge | storage/graph_store.c:399-415 | The edge object and its record together; both or neither. |
| GraphStore.Store.DeleteNode | storage/graph_store.c:417-448 | The node with, under DETACH, exactly its incident edges; refused otherwise if it has any. |
| GraphStore.Store.EdgeEndpoints | storage/graph_store.c:493-505 | The endpoints of a live edge. |
| GraphStore.Store.ValidateGraphFiles | storage/graph_store.c:153-174 | The cross-file check decides that the counts agree and every edge object matches its record and endpoints. |
| GraphStore.Reopen | storage/graph_store.c:231-286 | Opening the bytes of the three files of a valid store gives the same graph, refused exactly when an object file is beyond the page limit. |
| RedoLog.ApplyEvolves | database/wal.c:140-223 | No logged operation, failing or not, breaks the graph or revives an id. |
| WriteAheadLog.DecodeEncodedOperation | database/wal.c:109-127 | Every field and the payload of a record read back, and the cursor moves by exactly the record size. |
| WriteAheadLog.RecordLayout | database/wal.c:109-127 | The byte offsets of the fields of a record. |
| WriteAheadLog.FrameLayout | database/wal.c:105-108 | A frame begins with the transaction number and the number of records. |
| WriteAheadLog.FrameLength | database/wal.c:84-104 | The summed record sizes are exactly the length of the encoded frame. |
| WriteAheadLog.FillFrame | database/wal.c:105-130 | The running cursor fills the buffer with exactly the encoded frame. |
| WriteAheadLog.Log.WriteFrame | database/wal.c:91-138 | The log then holds the frame behind an unchanged header. |
| WriteAheadLog.Log.ReadFrame | database/wal.c:243-274 | Reading a written frame gives every operation back, an empty document as its five bytes. |
| WriteAheadLog.NormalFrameAppliesAlike | database/wal.c:243-274 | The operations read back do to any graph what the written ones do. |
| WriteAheadLog.Log.Clear | database/wal.c:225-228 | Only the header is left. |
| WriteAheadLog.OpenLog | database/wal.c:58-71 | An existing log is opened exactly when its size, magic and version are right. |
| WriteAheadLog.ApplyOne | database/wal.c:140-223 | One round of the apply loop does to the store what the operation does to its graph. |
| WriteAheadLog.Apply | database/wal.c:140-223 | Success applies all operations, a failure leaves the state of some prefix; with room in the files it succeeds exactly when the operations apply. |
| WriteAheadLog.Replay | database/wal.c:230-287 | Nothing without a frame; otherwise all of it and a clear log, or a failure with the log unchanged and the store after a prefix; with room it succeeds exactly when the frame applies. |
| Recovery.NextIdsExact | database/wal.c:145-182 | The ids a frame predicts are the ones the store is about to hand out. |
| Recovery.IdsNeverMismatch | database/wal.c:145-182 | The id-mismatch and unknown-operation errors never occur for a well-formed frame. |
| Recovery.LockStep | database/wal.c:140-223 | A replay in step with the commit: the operation does to both what the commit saw it do. |
| Recovery.Absorb | database/wal.c:140-223 | A replay behind the crash point: what is done already is skipped or done again to the same end, except the insert of an edge at a node deleted since, which is refused. |
| Recovery.ReplayFirst | database/wal.c:230-287 | Every prefix of a replay, from wherever crashes and failures left the graph, stays on the way of the commit or can never complete; without a touched node it succeeds as far as the commit did. |
| Recovery.RecoveryNeverWrong | database/wal.c:230-287 | For every frame a commit builds and any schedule of crashes and failed replays, a replay that completes has the graph of the uninterrupted commit, which then applies cleanly. |
| Recovery.RecoveryIsCommit | database/wal.c:230-287 | After any schedule of crashes in commit and replays, one complete replay gives the graph of the uninterrupted commit. |
| Recovery.FailingFrameStaysFailing | database/wal.c:230-287 | A frame the store refuses at some operation is refused there again by every recovery, in the same graph. |
| Recovery.CrashesChangeNothing | database/wal.c:140-287 | For every frame, applying cleanly or not, that before any refusal inserts no edge at a node it deletes, recovery has the graph and the verdict of the uninterrupted commit. |
| Recovery.TouchedReplayFails | database/wal.c:163-172 | A frame that inserts an edge at a node it deletes can never be replayed once it is applied, whatever has happened to the graph since. |
| Recovery.RecoverableIff | database/wal.c:140-223 | A frame that applies cleanly is recoverable from all schedules if and only if no inserted edge touches a deleted node. |
| Recovery.RecoveryCanFail | database/wal.c:163-172 | A concrete frame that applies cleanly and that no later replay completes. |
| Recovery.HarmlessIff | database/wal.c:230-287 | No replay of a frame, interrupted or not, changes a graph if and only if each operation up to the first refused leaves it alone. |
| Database.ReplayPending | database/database.c:189-201 | Replaying an interrupted commit: success has exactly the committed transaction and a clear log, with room and no touched node it succeeds exactly when the commit would have, and after a failure it can be repeated. |
| Database.Open | database/database.c:150-203 | The same from the bytes of the four files: the checks of store and log pass unless an object file is beyond the page limit. |
| Database.OpenClear | database/database.c:150-203 | With a clear log opening gives the same graph, refused exactly beyond the page limit. |
| CrashMachine.NextKeeps | database/wal.c:140-287 | The recovery invariant is kept by every step: frame write, one operation, clear, harmless statement, crash, restart. |
| CrashMachine.RunsAreSafe | database/transaction.c:205-219 | Over every run in which a statement beside a failed frame is harmless: whenever the log is empty, or a commit has just failed, the stored graph is the fold of the frames and statements so far, each counted once and in order; and from a statement to the next frame it is so in every state. |
| CrashMachine.FailuresAreOwed | database/transaction.c:213-217 | A commit that fails was bound to: its frame does not apply to the graph owed when it was written. |
| CrashMachine.OpeningCompletes | database/database.c:189-201 | In every such run a frame that a crash has left, without a touched node, is replayed by one uninterrupted open to the graph and the verdict of its commit. |
| CrashMachine.StatementSafeIff | database/database.c:189-201 | After a statement beside a failed frame no crash, restart or replay changes the graph if and only if the frame is harmless to it. |
| Matching.CheckLabel | execution/executor.c:17-40 | Whether some text of the label array is the label. |
| Matching.CheckProperties | execution/executor.c:42-66 | Whether every filter property is the object's first property of that key, type and bytes. |
| Matching.FilterIsConjunction | execution/executor.c:68-83 | A filter lets through exactly what its id, its label and its properties each let through; an empty one everything. |
| Matching.PropertyMeans | execution/executor.c:42-66 | An object has a property when it has that element and no earlier one with the key. |
| Matching.LabelsKey | execution/executor.c:17-23 | The key of the label array. |
| Matching.StoredTextIs | execution/executor.c:17-40 | A label is compared with the whole of a stored text, neither more nor less. |
| Matching.ShortcutIsScan | execution/executor.c:88-91 | The id shortcut scans to the same list as the whole range filtered by id. |
| Matching.ScanIsRelation | execution/executor.c:85-110 | A scan lists exactly the live ids that pass, ascending. |
| Matching.ScanElements | execution/executor.c:85-110 | The scan loop computes that list. |
| Matching.ListContains | execution/executor.c:112-119 | Membership in an id list. |
| Matching.ResolveMatch | execution/executor.c:121-167 | The three scans and the join compute the resolved list of the pattern. |
| Matching.ResolvedIsRelation | execution/executor.c:121-167 | That list is the relation: one projected id for each live edge whose three filters hold under the direction, by ascending edge id. |
| Matching.ResolvedMeans | execution/executor.c:121-167 | The result told of edge records: by ascending edge id, the start, the edge or the end, as the binding asks, of every edge that passes and runs, in the direction asked, from a node that passes the source filter to one that passes the destination filter. |
| Matching.ListsMatchedOnce | execution/executor.c:121-167 | Only one list lists the relation. |
| Matching.LeftIsRightSwapped | execution/executor.c:146-149 | A leftward pattern is the rightward one with source and destination filters and bindings swapped. |
| Matching.ResolvedIsLive | planner/binder.c:198-214 | Resolved ids of a bound pattern are live objects of its result kind. |
| Execution.AlreadyProcessed | execution/executor.c:208-215 | Whether the match occurred before. |
| Execution.MutateObject | execution/executor.c:230-257 | One match deleted, or updated by the merge; no change on failure. |
| Execution.ExecuteMutation | execution/executor.c:217-262 | Every match mutated once, in order; a failure leaves what the matches before it did; with room it succeeds exactly when every mutation is possible. |
| Execution.DistinctCounts | execution/executor.c:258-260 | The affected count is the number of different objects matched. |
| Transaction.FrameIsWellFormed | database/transaction.c:157-203 | Commit's frame has exact ids for its inserts and names only existing objects otherwise. |
| Transaction.CommitNeverMismatches | database/transaction.c:157-217 | So applying it can only fail where the store refuses an operation. |
| CommitEffect.FrameGrows | database/transaction.c:157-203 | The log keeps the order of the calls: the frame of one call more is the frame, then what that call contributes with the ids advanced by the inserts before it. |
| CommitEffect.CommitIsFold | database/transaction.c:148-225 | A commit applies to the graph, and with the verdict, of its calls taking effect one after the other, first call first, each on the objects it matched before the transaction. |
| Transaction.FrameUntouchedIff | database/transaction.c:157-203 | The frame inserts no edge at a node it deletes if and only if no two calls conflict. |
| Transaction.TransactionRecoverableIff | database/transaction.c:157-219 | A transaction that applies cleanly survives every schedule of crashes if and only if no two of its calls conflict. |
| Transaction.CommitSurvivesCrashes | database/transaction.c:148-225 | Without conflicting calls crashes never change the outcome of a commit, success or failure. |
| Transaction.CommitNeverWrong | database/transaction.c:148-225 | Whatever its calls, a recovery of a transaction that completes has the outcome of its commit. |
| Transaction.CommitIsMachineStep | database/transaction.c:205-219 | Writing the frame of any transaction is a careful step of the crash machine. |
| Transaction.BuildFrame | database/transaction.c:157-203 | The resolving loop with its id counters computes the frame. |
| Transaction.Transaction.Begin | database/transaction.c:54-67 | A transaction starts active and empty. |
| Transaction.Transaction.Execute | database/transaction.c:69-120 | Buffering a call, while active, touches neither store nor log. |
| Transaction.Transaction.Commit | database/transaction.c:148-225 | Success applies the whole frame and leaves the log clear; failure leaves the frame in the log and the store after a prefix of it; with room it succeeds exactly when the frame applies. |
| Transaction.Transaction.Abort | database/transaction.c:227-229 | Nothing is left of the buffered calls. |
| Witnesses.TransactionCanBlock | database/transaction.c:157-203 | Two calls that commit, and whose frame no replay ever completes afterwards. |
| Witnesses.FailedCommitBlocks | database/transaction.c:205-219 | A plain DELETE of a node with an edge: its commit fails, and so does every later open, whatever the crashes. |
| Witnesses.RevivedFrame | database/database.c:189-201 | A concrete run that ends with an empty log and without a node that is owed: a failed deletion carried out after a later statement. |
| Witnesses.TouchedButSteady | database/wal.c:163-172 | A frame that fails, touches a node it deletes, and has the same outcome under all crashes. |
| Witnesses.StaleFrame | database/database.c:189-201 | A concrete run in which the frame of a failed commit is replayed over a later statement: each open fails and stores one more uncommitted node. |
| SingleCall.InsertAgrees | database/transaction.c:161-172 | A transaction of one INSERT leaves the graph, and fails, exactly as the plain insert. |
| SingleCall.DeleteAgrees | database/transaction.c:173-200 | A transaction of one DELETE leaves the graph, and fails, exactly as autocommit, duplicates or not. |
| SingleCall.UpdateAgreesIff | database/transaction.c:184-188 | A transaction of one UPDATE and autocommit, both successful, end in the same graph if and only if the payload covers every matched object. |
| SingleCall.UpdateCanDiffer | database/transaction.c:184-188 | A concrete UPDATE on which they differ. |
| Reachability.Expand | execution/operators.c:22-36 | The inner loop marks exactly the vertices one live edge away from the frontier. |
| Reachability.IsReachable | execution/operators.c:5-46 | The search returns whether source and destination are in range and some walk of 1 to max_hops live edges joins them. |
| Reachability.EnoughHops | execution/operators.c:20-45 | With at least as many hops as vertices the bound excludes nothing. |
| Reachability.ReversedReaches | execution/operators.c:30-31 | Walks of any length reversed: backwards from d to s is forwards from s to d. |
| Reachability.ReversedReachesWithin | execution/operators.c:30-31 | The same under any bound. |
| Reachability.WithinIsPath | storage/graph_store.c:507-516 | On a valid store bounded walks over the records are bounded paths of the graph. |
| Reachability.ExecuteReachability | execution/executor.c:176-193 | Refused exactly when an endpoint was never handed out or the frontiers are too large; otherwise decides bounded paths of the graph in the direction asked. |
| Reachability.DeadNodeOnNoPath | storage/graph_store.c:437-447 | A deleted node reaches nothing and is never reached. |
| ExpressionParser.ParseBinarySound | parser/parser.c:2757-2781 | A parse yields exactly the consumed tokens, well shaped, and stops only at a token that binds too loosely. |
| ExpressionParser.ParseComplete | parser/parser.c:2757-2781 | Every well-shaped expression is parsed back whole. |
| ExpressionParser.ParseExactly | parser/parser.c:2753-2781 | The parser accepts exactly the well-shaped expressions, each as long as it can be. |
| ExpressionParser.ShapeIsUnique | parser/parser.c:2700-2781 | The tokens determine the expression. |
| ExpressionParser.InfixOperators | parser/parser.c:2700-2747 | The binary operators are those of six levels, and there is no other. |
| ExpressionParser.OperatorsInARow | parser/parser.c:2700-2781 | Of two operators in a row the first is applied first if and only if the level of the second is not above its own. |
| ExpressionParser.PrefixFirst | parser/parser.c:2783-2813 | A prefix operator applies to its operand before any binary operator. |
| ExpressionParser.ExpressionsBegin | parser/parser.c:2783-2813 | An expression begins with an operand, plus, minus, NOT or a parenthesis. |
| ExpressionParser.PrintRoundTrip | parser/parser.c:2700-2813 | A tree printed with the parentheses it needs parses back to itself. |
| ExpressionParser.PrintIsShortest | parser/parser.c:2700-2813 | No shorter expression parses to the tree. |
| ExpressionParser.Parser.Binary | parser/parser.c:2757-2781 | The climbing loop: success is the parse of the remaining tokens, failure sets the error flag. |
| ExpressionParser.Parser.Unary | parser/parser.c:2783-2813 | The same for prefix operators. |
| ExpressionParser.Parser.Primary | parser/parser.c:3155-3160 | The same for operands and parentheses, a missing parenthesis only setting the flag. |
| StringLiteral.EscapeIsUtf8 | parser/lexer.c:240-261 | On Unicode scalar values the escape encoder is the standard encoding. |
| StringLiteral.DecodeEscape | parser/lexer.c:288-344 | One escape: the bytes it yields and the bytes it takes, digits or not. |
| StringLiteral.UnicodeEscape | parser/lexer.c:316-341 | A scalar value in four hexadecimal digits behind u, or six behind U, decodes to its UTF-8 encoding. |
| StringLiteral.PlainEscape | parser/lexer.c:288-315 | t, n, r, b and f stand for their control characters, every other byte for itself. |
| StringLiteral.BadEscape | parser/lexer.c:316-341 | Too few digits, or a byte that is none, decode to a question mark; the byte is taken along. |
| StringLiteral.DecodeToken | parser/lexer.c:263-374 | The decoded text is at least two bytes shorter than the token, or empty. |
| StringLiteral.DecodeQuoted | parser/lexer.c:263-374 | The decoding loop computes the decoded text and never takes its growth branch. |
| StringLiteral.QuoteRoundTrip | parser/lexer.c:263-446 | A quoted text not followed by its delimiter is one literal spanning it, and decodes to the text. |
| StringLiteral.QuoteGoesOn | parser/lexer.c:420-426 | Followed by its delimiter the literal goes on instead. |
| Lexer.Scanner.Bump | parser/lexer.c:152-167 | One byte, or a line end of two; the line number stays that of the position. |
| Lexer.Scanner.SkipSpaces | parser/lexer.c:169-225 | Stops at the first byte that is neither white space nor in a comment. |
| Lexer.Scanner.LexString | parser/lexer.c:402-446 | The string token ends at its closing delimiter, or is an error to the end of the source. |
| Lexer.Scanner.LexNumber | parser/lexer.c:507-633 | The span, the kind and the float flag of a number. |
| Lexer.Scanner.LexOne | parser/lexer.c:700-907 | One token and the position behind it, as a function of source and position. |
| Lexer.LongestWord | parser/lexer.c:480-505 | A word is the longest run of word bytes from its start. |
| Lexer.LongestPunctuation | parser/lexer.c:688-907 | Of the operators and one-byte symbols that start at a byte the longest is taken, and without any the byte is an error. |
| Lexer.LongestDecimal | parser/lexer.c:507-633 | A number without radix prefix is the longest of digits, fraction, exponent and suffix, each optional, that starts there. |
| Spellings.PunctuationSpelled | parser/lexer.c:768-890 | The spellings of all operators and symbols, and no other text is one. |
| Spellings.ClassesSpelled | parser/lexer.c:55-93 | The characters of words and of the digits of each base. |
| Spellings.RadixSpelled | parser/lexer.c:507-580 | The prefixes 0x, 0o and 0b, in either case, and the digits they lead. |
| Spellings.FloatMeans | parser/lexer.c:583-618 | A decimal number is a float if and only if a point, e, E, f, F, d or D is in it. |
| Spellings.ParameterSpelled | parser/lexer.c:634-686 | One or two dollar signs and a name are one parameter token. |
| Spellings.ByteStringSpelled | parser/lexer.c:448-478 | x and quoted hexadecimal digits and spaces are a byte string; any other character makes it an error. |
| Spellings.AtSpelled | parser/lexer.c:730-746 | Behind an at sign a quoted text is the same token. |
| Spellings.WhiteSpelled | parser/lexer.c:97-123 | The UTF-8 encodings of the white space code points are skipped whole. |
| Spellings.OnlyWhiteSkipped | parser/lexer.c:97-123 | And no other bytes beyond ASCII. |
| Spellings.WhiteBytesSpelled | parser/lexer.c:125-142 | The ASCII characters that separate tokens. |
| Spellings.BlockComment | parser/lexer.c:169-225 | A block comment is skipped up to its first end. |
| Spellings.LineComment | parser/lexer.c:169-225 | A line comment, by two slashes or two minus signs, is skipped up to the end of the line. |
| Lexer.QuotedLexes | parser/lexer.c:402-446 | Anywhere in a source a quoted text lexes to one token that decodes to it. |
| Lexer.TokensAdvance | parser/lexer.c:700-907 | Tokens are disjoint, in order, inside the source, and each but the end moves on. |
| Lexer.EndRepeats | parser/lexer.c:700-714 | After the end token every token is the end token. |
| Lexer.EndComes | parser/lexer.c:700-714 | The end comes within one token per byte. |
| TokenWindow.Window.EnsureToken | parser/lexer.c:919-924 | Fills the window up to the slot asked for. |
| TokenWindow.Window.Peek | parser/lexer.c:926-929 | Token n + k of the stream after n have been consumed, whatever was looked at before, exactly where the slot exists. |
| TokenWindow.Window.Advance | parser/lexer.c:931-943 | Consumes one token, compaction or not. |
| TokenWindow.Window.FourAhead | parser/lexer.c:926-929 | How far ahead the eight slots reach after n tokens: k tokens exactly when n mod 4 + k < 8, so four always and five unless n mod 4 = 3. |
| TokenWindow.Window.CreateIsGraphType | parser/parser.c:631-650 | Whether TYPE ends the look, as a function of the token stream, and when the look leaves the slots. |
| TokenWindow.LooksPastIff | parser/parser.c:631-650 | It leaves the slots if and only if OR, any token, PROPERTY and GRAPH follow a CREATE whose number is one less than a multiple of four. |
| TokenWindow.CreateLooksPast | parser/parser.c:631-650 | A source text on which it does. |

## Left out

- Memory-mapped files, paths, directory creation, flushing and every input or output error: files are byte sequences that always take a write.
- Allocation failure, error message texts, destroy and free functions, and views that alias a buffer.
- Crashes inside a frame write, inside a clear or inside one store operation; a frame has no checksum and a moving update takes several writes, so atomicity of each is an assumption.
- Database.Open: the reading of metadata.ll and the catalog between store and log is not modelled.
- GraphStore.Store.GrowConnectivity: a resize the system refuses, as above INT64_MAX bytes, comes after the unmap and leaves the C code without a mapping; the model keeps its records, so using a store after that failure is not covered.
- GraphStore.Store.InsertEdge: with no room left in a file it may fail although the graph operation is possible; it then changes nothing.
- Recovery.CrashesChangeNothing: for frames that do not apply cleanly the condition is sufficient, not necessary; `Witnesses.TouchedButSteady` is a frame outside it whose outcome no crash changes.
- Transaction.FrameIsWellFormed: asks that the id counters do not pass 2^64, which no array of calls in memory can make them do.
- CommitEffect.CommitIsFold: likewise.
- Reachability.IsReachable: takes as given that the endpoints of live records are below the vertex count, as the C code does when it indexes the frontiers.
- Transaction.Transaction.Execute: takes a bound call; parsing, binding and the refusal of reads and catalog statements are not modelled.
- ExpressionParser.Parser.Binary: covers tokens that are operands, prefix and binary operators and parentheses; property access, IS predicates, function calls (a name directly before a parenthesis), CASE, lists, records and the other primaries are not modelled.
- ExpressionParser.Parser.Unary: as `Parser.Binary`; EXISTS, ALL_DIFFERENT, SAME, PROPERTY_EXISTS and PROPERTY GRAPH are `Stop` tokens here.
- ExpressionParser.Parser.Primary: as `Parser.Binary`; a name that an opening parenthesis follows directly is a function call and so not an operand token.
- Lexer.Scanner.Bump: columns are not modelled.
- Lexer.Scanner.LexOne: keyword, operator and quote kinds and columns are not modelled; a keyword is a word. All are functions of the span's text.
- TokenWindow.Window.Peek: what the C code reads and overwrites when it looks past the slots is not modelled; the result is then None.
- BsonWriter.BsonBuffer.Append: the width of a double is its 64-bit pattern; floating-point meaning is not modelled. The -1 length convention of the string append is a text of known length.
- The rest of the recursive-descent grammar, the binder, the planner's document builder, the catalog, the shell, AST and plan dumps, keyword and name tables, object id generation, and the typed getters of the reader.
- Running several statements against one database at a time: the database is used by one caller.
