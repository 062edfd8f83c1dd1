/** The connectivity file: a header and the endpoint records of all edges, mapped as one array. */
module Connectivity {
  import opened Bytes
  import opened PagedObjectFile

  const HEADER_SIZE: nat := 64
  const EDGE_SIZE: nat := 16
  const INT64_MAX: nat := 0x7fff_ffff_ffff_ffff
  const CONNECTIVITY_MAGIC: seq<byte> := [76, 78, 75, 67, 79, 79, 50, 0]

  datatype CooEdge = CooEdge(source: u64, destination: u64)

  const TOMBSTONE: CooEdge := CooEdge(UINT64_MAX, UINT64_MAX)

  /** linklet_coo_edge_is_deleted */
  predicate IsDeleted(e: CooEdge) { e.source == UINT64_MAX && e.destination == UINT64_MAX }

  /** The fields of the header, as wide as those of an object file's header. */
  datatype ConnectivityHeader = ConnectivityHeader(magic: seq<byte>, version: u32, edgeSize: u32,
                                                   edgeCount: u64, edgeCapacity: u64, vertexIdCapacity: u64)

  function EncodeHeader(h: ConnectivityHeader): (s: seq<byte>)
    requires |h.magic| == 8
    ensures |s| == HEADER_SIZE
  {
    EncodeFileHeader(
      FileHeader(h.magic, h.version, h.edgeSize, h.edgeCount, h.edgeCapacity, h.vertexIdCapacity, seq(24, _ => 0)))
  }

  function DecodeHeader(s: seq<byte>): ConnectivityHeader
    requires |s| == HEADER_SIZE
  {
    var h := DecodeFileHeader(s);
    ConnectivityHeader(h.magic, h.version, h.pageSize, h.pageCount, h.nextId, h.liveCount)
  }

  lemma DecodeEncodedHeader(h: ConnectivityHeader)
    requires |h.magic| == 8
    ensures DecodeHeader(EncodeHeader(h)) == h
  {
    hide EncodeFileHeader, DecodeFileHeader;
    DecodeEncodedFileHeader(
      FileHeader(h.magic, h.version, h.edgeSize, h.edgeCount, h.edgeCapacity, h.vertexIdCapacity, seq(24, _ => 0)));
  }

  /** The mapped header. */
  function LoadHeader(bytes: seq<byte>): ConnectivityHeader
    requires HEADER_SIZE <= |bytes|
  {
    DecodeHeader(ReadAt(bytes, 0, HEADER_SIZE))
  }

  // ----- The records -----

  function EncodeRecord(e: CooEdge): (s: seq<byte>)
    ensures |s| == 16
  {
    StoreU64(e.source) + StoreU64(e.destination)
  }

  function DecodeRecord(s: seq<byte>): CooEdge
    requires |s| == 16
  {
    CooEdge(LoadU64(s), LoadU64(s[8..]))
  }

  lemma DecodeEncodedRecord(e: CooEdge)
    ensures DecodeRecord(EncodeRecord(e)) == e
  {
    hide LoadU64, StoreU64;
    LoadStoreU64(e.source, StoreU64(e.destination));
    LoadStoreU64(e.destination, []);
    assert StoreU64(e.destination) + [] == StoreU64(e.destination);
    assert EncodeRecord(e)[8..] == StoreU64(e.destination);
  }

  function EncodeRecords(coo: seq<CooEdge>): (s: seq<byte>)
    ensures |s| == 16 * |coo|
  {
    if coo == [] then [] else EncodeRecord(coo[0]) + EncodeRecords(coo[1..])
  }

  lemma {:induction false} RecordAt(coo: seq<CooEdge>, i: nat)
    requires i < |coo|
    ensures ReadAt(EncodeRecords(coo), 16 * i, 16) == EncodeRecord(coo[i])
  {
    hide EncodeRecord;
    var head, rest := EncodeRecord(coo[0]), EncodeRecords(coo[1..]);
    assert (head + rest)[..16] == head && (head + rest)[16..] == rest;
    if i > 0 {
      RecordAt(coo[1..], i - 1);
      SliceOfDrop(head + rest, 16, 16 * (i - 1), 16 * i);
    }
  }

  function RecordPosition(i: nat): nat { 64 + 16 * i }

  /** The mapped array: record `i` at its position. */
  function Records(bytes: seq<byte>, n: nat): (coo: seq<CooEdge>)
    requires RecordPosition(n) <= |bytes|
    ensures |coo| == n
  {
    seq(n, i requires 0 <= i < n => DecodeRecord(ReadAt(bytes, RecordPosition(i), 16)))
  }

  /** Where the fields of the header, and the endpoints of each edge, stand in a file. */
  lemma FileLayout(coo: seq<CooEdge>, edgeCount: u64, vertexIdCapacity: u64, i: nat)
    requires |coo| <= UINT64_MAX && i < |coo|
    ensures var s := FileOf(coo, edgeCount, vertexIdCapacity);
            && s[..8] == CONNECTIVITY_MAGIC && LoadU32(s[8..]) == FILE_VERSION && LoadU32(s[12..]) == 16
            && LoadU64(s[16..]) == edgeCount && LoadU64(s[24..]) == |coo| && LoadU64(s[32..]) == vertexIdCapacity
            && LoadU64(s[64 + 16 * i..]) == coo[i].source && LoadU64(s[72 + 16 * i..]) == coo[i].destination
  {
    hide EncodeFileHeader, EncodeRecords;
    var h := HeaderFor(|coo|, edgeCount, vertexIdCapacity);
    var s, head := FileOf(coo, edgeCount, vertexIdCapacity), EncodeHeader(h);
    FileHeaderLayout(
      FileHeader(h.magic, h.version, h.edgeSize, h.edgeCount, h.edgeCapacity, h.vertexIdCapacity, seq(24, _ => 0)));
    assert s[..8] == head[..8];
    LoadsAgree(head, s, 8);
    LoadsAgree(head, s, 12);
    LoadsAgree(head, s, 16);
    LoadsAgree(head, s, 24);
    LoadsAgree(head, s, 32);
    RecordsBehind(head, coo, i);
  }

  /** A word is read from the bytes it stands in. */
  lemma LoadsAgree(a: seq<byte>, b: seq<byte>, at: nat)
    requires at + 8 <= |a| && a <= b
    ensures LoadU32(a[at..]) == LoadU32(b[at..]) && LoadU64(a[at..]) == LoadU64(b[at..])
  {
  }

  lemma RecordsBehind(head: seq<byte>, coo: seq<CooEdge>, i: nat)
    requires |head| == 64 && i < |coo|
    ensures var s := head + EncodeRecords(coo);
            LoadU64(s[64 + 16 * i..]) == coo[i].source && LoadU64(s[72 + 16 * i..]) == coo[i].destination
  {
    hide EncodeRecords, EncodeRecord, LoadU64;
    var s, records := head + EncodeRecords(coo), EncodeRecords(coo);
    var record := EncodeRecord(coo[i]);
    RecordAt(coo, i);
    DecodeEncodedRecord(coo[i]);
    var t := s[64 + 16 * i..];
    assert t[..16] == records[16 * i..16 * i + 16];
    assert record <= t;
    LoadsAgree(record, t, 0);
    LoadsAgree(record, t, 8);
    assert record[0..] == record && t[0..] == t;
    DropOfDrop(s, 64 + 16 * i, 8);
  }

  // ----- The file -----

  function HeaderFor(capacity: u64, edgeCount: u64, vertexIdCapacity: u64): (h: ConnectivityHeader)
    ensures |h.magic| == 8
  {
    ConnectivityHeader(CONNECTIVITY_MAGIC, FILE_VERSION, EDGE_SIZE, edgeCount, capacity, vertexIdCapacity)
  }

  function FileOf(coo: seq<CooEdge>, edgeCount: u64, vertexIdCapacity: u64): (s: seq<byte>)
    requires |coo| <= UINT64_MAX
    ensures |s| == RecordPosition(|coo|)
  {
    EncodeHeader(HeaderFor(|coo|, edgeCount, vertexIdCapacity)) + EncodeRecords(coo)
  }

  /** checked_connectivity_size */
  predicate CheckedSize(capacity: nat) { RecordPosition(capacity) <= SIZE_MAX }

  /** What linklet_graph_store_open asks of the file on its own. */
  predicate Accepted(bytes: seq<byte>) {
    && HEADER_SIZE <= |bytes|
    && var h := LoadHeader(bytes);
       && h.magic == CONNECTIVITY_MAGIC && h.version == FILE_VERSION && h.edgeSize == EDGE_SIZE
       && h.edgeCount <= h.edgeCapacity
       && CheckedSize(h.edgeCapacity) && RecordPosition(h.edgeCapacity) == |bytes|
  }

  /** The checks on the header, and the array behind it. */
  method OpenConnectivity(bytes: seq<byte>) returns (ok: bool, coo: seq<CooEdge>, edgeCount: u64, vertexIdCapacity: u64)
    ensures ok <==> Accepted(bytes)
    ensures ok ==> var h := LoadHeader(bytes);
              && coo == Records(bytes, h.edgeCapacity)
              && edgeCount == h.edgeCount && vertexIdCapacity == h.vertexIdCapacity
  {
    hide LoadHeader;
    if |bytes| < HEADER_SIZE {
      return false, [], 0, 0;
    }
    var h := LoadHeader(bytes);
    if h.magic != CONNECTIVITY_MAGIC || h.version != FILE_VERSION || h.edgeSize != EDGE_SIZE
       || h.edgeCount > h.edgeCapacity || !CheckedSize(h.edgeCapacity) || RecordPosition(h.edgeCapacity) != |bytes| {
      return false, [], 0, 0;
    }
    return true, Records(bytes, h.edgeCapacity), h.edgeCount, h.vertexIdCapacity;
  }

  /** A file written with its counts and records is accepted, and reads back. */
  lemma FileReadsBack(bytes: seq<byte>, coo: seq<CooEdge>, edgeCount: u64, vertexIdCapacity: u64)
    requires edgeCount <= |coo| && CheckedSize(|coo|) && bytes == FileOf(coo, edgeCount, vertexIdCapacity)
    ensures LoadHeader(bytes) == HeaderFor(|coo|, edgeCount, vertexIdCapacity)
    ensures Accepted(bytes) && Records(bytes, |coo|) == coo
  {
    hide EncodeHeader, DecodeHeader, DecodeRecord, EncodeRecord, EncodeRecords;
    var header := HeaderFor(|coo|, edgeCount, vertexIdCapacity);
    DecodeEncodedHeader(header);
    assert ReadAt(bytes, 0, HEADER_SIZE) == EncodeHeader(header);
    assert bytes[HEADER_SIZE..] == EncodeRecords(coo);
    forall i | 0 <= i < |coo| ensures DecodeRecord(ReadAt(bytes, RecordPosition(i), 16)) == coo[i] {
      RecordAt(coo, i);
      SliceOfDrop(bytes, HEADER_SIZE, 16 * i, 16 * i + 16);
      DecodeEncodedRecord(coo[i]);
    }
  }
}
