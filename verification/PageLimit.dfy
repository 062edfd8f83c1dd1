/** The page limit of an object file, reached through inserts. */
module PageLimit {
  import opened Bytes
  import opened PageLayout
  import opened PagedObjectFile
  import BsonFormat
  import BsonWriter
  import GraphStore
  import Utf8

  /** One binary property that fills a page of its own: 65480 bytes with everything around it. */
  const FILLING: BsonWriter.Value := BsonWriter.Binary(0, seq(65467, _ => 0))

  /** A valid document of the largest size an object file takes. */
  method LargestDocument() returns (doc: seq<byte>)
    ensures BsonFormat.ValidDocument(doc) && |doc| == MAX_OBJECT_SIZE
  {
    hide BsonFormat.ValidDocument, BsonWriter.ValidHandle;
    LargestFits();
    doc := BsonWriter.Appended([], BsonFormat.Element(BsonFormat.BINARY, [97], BsonWriter.ValueBytes(FILLING)));
  }

  lemma LargestFits()
    ensures BsonWriter.Storable(FILLING) && |BsonWriter.ValueBytes(FILLING)| == 65472
    ensures var e := BsonFormat.Element(BsonFormat.BINARY, [97], BsonWriter.ValueBytes(FILLING));
            && BsonWriter.SizeWith([], e) == MAX_OBJECT_SIZE
            && BsonFormat.ValidDocument(BsonWriter.Appended([], e))
  {
    hide BsonFormat.ValidDocument, BsonFormat.DocumentElements, StoreU32;
    assert BsonFormat.FindZero([97]) == 1 && Utf8.Accepts([97]);
    BsonWriter.TypedAppendKeepsValid([], [97], FILLING);
  }

  /**
   * 2^32 inserts of such a document, each of them successful, make a file that cannot be opened
   * again.
   */
  method FillBeyondTheLimit() returns (file: ObjectFile, doc: seq<byte>, reopened: bool)
    ensures file.Valid() && file.header.nextId == UINT32_MAX + 1 && file.header.pageCount == UINT32_MAX + 1
    ensures |doc| == MAX_OBJECT_SIZE
    ensures forall id: nat :: id <= UINT32_MAX ==> id in file.Contents() && file.Contents()[id] == doc
    ensures !reopened
  {
    hide BsonFormat.ValidDocument, ObjectFile.Valid, ObjectFile.Contents, ObjectFile.AllTaken;
    doc := LargestDocument();
    file := new ObjectFile();
    file.Initialize(GraphStore.NODES_MAGIC);
    NewFileTaken(file);
    var n := 0;
    while n <= UINT32_MAX
      invariant n <= UINT32_MAX + 1 && |doc| == MAX_OBJECT_SIZE && BsonFormat.ValidDocument(doc)
      invariant fresh(file) && file.Valid() && file.Shaped() && file.AllTaken()
      invariant file.header.nextId == n && file.header.pageCount == n
      invariant forall id: nat :: id < n ==> id in file.Contents() && file.Contents()[id] == doc
      decreases UINT32_MAX + 1 - n
    {
      var ok, id := file.Insert(doc);
      FileShaped(file);
      n := n + 1;
    }
    var again;
    reopened, again := Reopen(file);
  }

  lemma FileShaped(file: ObjectFile)
    requires file.Valid()
    ensures file.Shaped()
  {
  }

  lemma NewFileTaken(file: ObjectFile)
    requires file.Valid() && file.header.pageCount == 0
    ensures file.Shaped() && file.AllTaken()
  {
  }
}
