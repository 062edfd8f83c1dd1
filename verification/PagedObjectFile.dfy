/** The paged object file: documents under ids that are never reused, kept in 64 KiB pages. */
module PagedObjectFile {
  import opened Bytes
  import opened PageLayout
  import opened ObjectImage
  import BsonFormat
  import BsonReader
  import BsonValidator

  const FILE_HEADER_SIZE: nat := 64
  const FILE_VERSION: u32 := 2
  const INITIAL_LOCATIONS: nat := 16

  datatype FileHeader = FileHeader(magic: seq<byte>, version: u32, pageSize: u32,
                                   pageCount: u64, nextId: u64, liveCount: u64, reserved: seq<byte>)

  predicate HeaderShape(h: FileHeader) { |h.magic| == 8 && |h.reserved| == 24 }

  function EncodeFileHeader(h: FileHeader): (s: seq<byte>)
    requires HeaderShape(h)
    ensures |s| == FILE_HEADER_SIZE
  {
    h.magic + (StoreU32(h.version) + (StoreU32(h.pageSize) +
    (StoreU64(h.pageCount) + (StoreU64(h.nextId) + (StoreU64(h.liveCount) + h.reserved)))))
  }

  function DecodeFileHeader(s: seq<byte>): (h: FileHeader)
    requires |s| == FILE_HEADER_SIZE
    ensures HeaderShape(h)
  {
    var t := s[8..];
    FileHeader(s[..8], LoadU32(t), LoadU32(t[4..]), LoadU64(t[4..][4..]), LoadU64(t[4..][4..][8..]),
               LoadU64(t[4..][4..][8..][8..]), t[4..][4..][8..][8..][8..])
  }

  lemma DecodeEncodedFileHeader(h: FileHeader)
    requires HeaderShape(h)
    ensures DecodeFileHeader(EncodeFileHeader(h)) == h
  {
    hide LoadU32, StoreU32, LoadU64, StoreU64;
    var t6 := h.reserved;
    var t5 := StoreU64(h.liveCount) + t6;
    var t4 := StoreU64(h.nextId) + t5;
    var t3 := StoreU64(h.pageCount) + t4;
    var t2 := StoreU32(h.pageSize) + t3;
    var t1 := StoreU32(h.version) + t2;
    LoadStoreU64(h.liveCount, t6);
    LoadStoreU64(h.nextId, t5);
    LoadStoreU64(h.pageCount, t4);
    LoadStoreU32(h.pageSize, t3);
    LoadStoreU32(h.version, t2);
    assert (h.magic + t1)[8..] == t1 && (h.magic + t1)[..8] == h.magic;
    assert t1[4..] == t2 && t2[4..] == t3 && t3[8..] == t4 && t4[8..] == t5 && t5[8..] == t6;
  }

  /** Where the fields of a file header stand. */
  lemma FileHeaderLayout(h: FileHeader)
    requires HeaderShape(h)
    ensures var s := EncodeFileHeader(h);
            && s[..8] == h.magic && LoadU32(s[8..]) == h.version && LoadU32(s[12..]) == h.pageSize
            && LoadU64(s[16..]) == h.pageCount && LoadU64(s[24..]) == h.nextId && LoadU64(s[32..]) == h.liveCount
            && s[40..] == h.reserved
  {
    hide EncodeFileHeader, LoadU32, LoadU64;
    DecodeEncodedFileHeader(h);
    var s := EncodeFileHeader(h);
    DropOfDrop(s, 8, 4);
    DropOfDrop(s, 12, 4);
    DropOfDrop(s, 16, 8);
    DropOfDrop(s, 24, 8);
    DropOfDrop(s, 32, 8);
  }

  // ----- The pages of a file image -----

  function PageStart(p: nat): (n: nat)
    ensures n == FILE_HEADER_SIZE + p * PAGE_SIZE
  {
    64 + p * 0x1_0000
  }

  predicate HasPage(disk: seq<byte>, p: nat) { PageStart(p + 1) <= |disk| }

  function PageAt(disk: seq<byte>, p: nat): (page: seq<byte>)
    requires HasPage(disk, p)
    ensures |page| == PAGE_SIZE
  {
    ReadAt(disk, PageStart(p), PAGE_SIZE)
  }

  function Pages(disk: seq<byte>, n: nat): (pages: seq<seq<byte>>)
    requires PageStart(n) <= |disk|
    ensures |pages| == n
    ensures forall p :: 0 <= p < n ==> HasPage(disk, p) && pages[p] == PageAt(disk, p)
  {
    assert forall p: nat :: p < n ==> HasPage(disk, p);
    seq(n, p requires 0 <= p < n => PageAt(disk, p))
  }

  lemma ReadInPage(disk: seq<byte>, p: nat, at: nat, size: nat)
    requires HasPage(disk, p) && at + size <= PAGE_SIZE
    ensures ReadAt(disk, PageStart(p) + at, size) == ReadAt(PageAt(disk, p), at, size)
  {
    var page, whole := PageAt(disk, p), ReadAt(disk, PageStart(p) + at, size);
    forall i | 0 <= i < size ensures whole[i] == page[at..at + size][i] {
      assert whole[i] == disk[PageStart(p) + at + i] == page[at + i];
    }
  }

  /** A write inside page `p` is a write to that page. */
  lemma WriteInPage(disk: seq<byte>, n: nat, p: nat, at: nat, data: seq<byte>)
    requires PageStart(n) <= |disk| && p < n && at + |data| <= PAGE_SIZE
    ensures PageStart(p) + at + |data| <= |disk|
    ensures var disk' := WriteAt(disk, PageStart(p) + at, data);
            && Pages(disk', n) == Pages(disk, n)[p := WriteAt(Pages(disk, n)[p], at, data)]
            && ReadAt(disk', 0, FILE_HEADER_SIZE) == ReadAt(disk, 0, FILE_HEADER_SIZE)
  {
    var start := PageStart(p) + at;
    var disk' := WriteAt(disk, start, data);
    WindowOfWrite(disk, PageStart(p), PAGE_SIZE, at, data);
    forall q | 0 <= q < n && q != p ensures PageAt(disk', q) == PageAt(disk, q) {
      ReadOutsideWrite(disk, start, data, PageStart(q), PAGE_SIZE);
    }
    ReadOutsideWrite(disk, start, data, 0, FILE_HEADER_SIZE);
  }

  lemma WriteHeaderKeepsPages(disk: seq<byte>, n: nat, header: seq<byte>)
    requires PageStart(n) <= |disk| && |header| == FILE_HEADER_SIZE
    ensures Pages(WriteAt(disk, 0, header), n) == Pages(disk, n)
    ensures ReadAt(WriteAt(disk, 0, header), 0, FILE_HEADER_SIZE) == header
  {
    ReadBackWrite(disk, 0, header);
    forall q | 0 <= q < n ensures PageAt(WriteAt(disk, 0, header), q) == PageAt(disk, q) {
      ReadOutsideWrite(disk, 0, header, PageStart(q), PAGE_SIZE);
    }
  }

  lemma GrowPages(disk: seq<byte>, n: nat, more: seq<byte>)
    requires |disk| == PageStart(n) && |more| == PAGE_SIZE
    ensures Pages(disk + more, n + 1) == Pages(disk, n) + [more]
    ensures ReadAt(disk + more, 0, FILE_HEADER_SIZE) == ReadAt(disk, 0, FILE_HEADER_SIZE)
  {
    assert PageAt(disk + more, n) == more;
    assert forall q :: 0 <= q < n ==> PageAt(disk + more, q) == PageAt(disk, q);
  }

  // ----- The index grows by doubling -----

  /** The most entries doubling from 16 leads to without passing SIZE_MAX: 2^63. */
  const MAX_LOCATIONS: nat := 0x8000_0000_0000_0000

  /** The number comes to 2^63 when it is doubled often enough. */
  predicate Doubles(n: nat)
    decreases MAX_LOCATIONS - n
  {
    n == MAX_LOCATIONS || (0 < n < MAX_LOCATIONS && Doubles(2 * n))
  }

  /** The capacities an index can have. */
  predicate IndexSize(n: nat) { n == 0 || Doubles(n) }

  lemma IndexSizeBounded(n: nat)
    requires IndexSize(n)
    ensures n <= MAX_LOCATIONS
  {
  }

  lemma InitialDoubles()
    ensures Doubles(INITIAL_LOCATIONS)
  {
    assert Doubles(0x1000_0000_0000_0000) && Doubles(0x10_0000_0000_0000) && Doubles(0x1000_0000_0000);
    assert Doubles(0x10_0000_0000) && Doubles(0x1000_0000) && Doubles(0x10_0000) && Doubles(0x1000);
  }

  // ----- What opening a file checks -----

  predicate CompatibleHeader(h: FileHeader, magic: seq<byte>) {
    && h.magic == magic && h.version == FILE_VERSION && h.pageSize == PAGE_SIZE
    && h.pageCount <= UINT32_MAX
  }

  /** A file has the size its header says, and an index that long can be allocated. */
  predicate SizesAccepted(h: FileHeader, size: nat) {
    size == PageStart(h.pageCount) && h.nextId <= MAX_LOCATIONS
  }

  /** The checks on one slot of a page with free space ending at `freeEnd`. */
  predicate SlotAccepted(page: seq<byte>, freeEnd: nat, slot: Slot, nextId: nat)
    requires |page| == PAGE_SIZE
  {
    && slot.id < nextId && slot.length <= slot.capacity
    && freeEnd <= slot.offset && slot.offset + slot.capacity <= PAGE_SIZE
    && (slot.flags == SLOT_ACTIVE ==> BsonFormat.ValidDocument(Payload(page, slot)))
  }

  /** The checks on the file header, on the bytes. */
  lemma HeaderChecks(disk: seq<byte>, magic: seq<byte>)
    requires FILE_HEADER_SIZE <= |disk|
    ensures var h := DecodeFileHeader(ReadAt(disk, 0, FILE_HEADER_SIZE));
            && h.pageCount == LoadU64(disk[16..]) && h.nextId == LoadU64(disk[24..])
            && h.liveCount == LoadU64(disk[32..])
            && (CompatibleHeader(h, magic) && SizesAccepted(h, |disk|) <==>
                && disk[..8] == magic && LoadU32(disk[8..]) == 2 && LoadU32(disk[12..]) == 0x1_0000
                && LoadU64(disk[16..]) <= 0xffff_ffff && |disk| == 64 + 0x1_0000 * LoadU64(disk[16..])
                && LoadU64(disk[24..]) <= 0x8000_0000_0000_0000)
  {
    hide LoadU32, LoadU64;
    var s := ReadAt(disk, 0, FILE_HEADER_SIZE);
    DropOfDrop(s, 8, 4);
    DropOfDrop(s, 12, 4);
    DropOfDrop(s, 16, 8);
    DropOfDrop(s, 24, 8);
    assert s == disk[0..64] == disk[..64] && s[..8] == disk[..8];
    LoadsOfCut(disk, 64, 8);
    LoadsOfCut(disk, 64, 12);
    LoadsOfCut(disk, 64, 16);
    LoadsOfCut(disk, 64, 24);
    LoadsOfCut(disk, 64, 32);
  }

  /** The checks on a slot, on the bytes. */
  lemma SlotChecks(page: seq<byte>, freeEnd: nat, k: nat, nextId: nat)
    requires |page| == PAGE_SIZE && 32 + 24 * (k + 1) <= PAGE_SIZE
    ensures var s := page[32 + 24 * k..];
            var offset, length, capacity := LoadU32(s[8..]), LoadU32(s[12..]), LoadU32(s[16..]);
            SlotAccepted(page, freeEnd, SlotAt(page, k), nextId) <==>
              && LoadU64(s) < nextId && length <= capacity && freeEnd <= offset && offset + capacity <= 0x1_0000
              && (LoadU32(s[20..]) == 1 ==> BsonFormat.ValidDocument(page[offset..offset + length]))
  {
    hide LoadU32, LoadU64, BsonFormat.ValidDocument;
    var s, cut := page[32 + 24 * k..], ReadAt(page, SlotPosition(k), SLOT_SIZE);
    assert cut == s[..24];
    DropOfDrop(cut, 8, 4);
    DropOfDrop(cut, 12, 4);
    DropOfDrop(cut, 16, 4);
    LoadsOfCut(s, 24, 0);
    LoadsOfCut(s, 24, 8);
    LoadsOfCut(s, 24, 12);
    LoadsOfCut(s, 24, 16);
    LoadsOfCut(s, 24, 20);
    assert cut[0..] == cut && s[0..] == s;
  }

  ghost predicate SlotsAccepted(pages: seq<seq<byte>>, nextId: nat) {
    forall p: nat, k: nat {:trigger Has(pages, p, k)} :: Has(pages, p, k) ==>
      SlotAccepted(pages[p], HeaderOf(pages[p]).freeEnd, SlotIn(pages, p, k), nextId)
  }

  ghost predicate UniquelyActive(pages: seq<seq<byte>>) {
    forall p: nat, k: nat, q: nat, j: nat {:trigger Active(pages, p, k), Active(pages, q, j)} ::
      Active(pages, p, k) && Active(pages, q, j) && SlotIn(pages, p, k).id == SlotIn(pages, q, j).id ==>
          p == q && k == j
  }

  ghost predicate HasActiveSlot(pages: seq<seq<byte>>, id: nat) {
    exists p: nat, k: nat {:trigger Active(pages, p, k)} :: Active(pages, p, k) && SlotIn(pages, p, k).id == id
  }

  ghost function ActiveIds(pages: seq<seq<byte>>, nextId: nat): set<nat> {
    set id: nat | id < nextId && HasActiveSlot(pages, id)
  }

  /** The files that open accepts. */
  ghost predicate Openable(disk: seq<byte>, magic: seq<byte>) {
    && FILE_HEADER_SIZE <= |disk|
    && var h := DecodeFileHeader(ReadAt(disk, 0, FILE_HEADER_SIZE));
       && CompatibleHeader(h, magic)
       && SizesAccepted(h, |disk|)
       && var pages := Pages(disk, h.pageCount);
          && (forall p :: 0 <= p < |pages| ==> Readable(pages[p], p))
          && SlotsAccepted(pages, h.nextId)
          && UniquelyActive(pages)
          && |ActiveIds(pages, h.nextId)| == h.liveCount
  }

  // ----- Rebuilding the index -----

  predicate Before(q: nat, j: nat, p: nat, k: nat) { q < p || (q == p && j < k) }

  ghost predicate AcceptedUpTo(pages: seq<seq<byte>>, nextId: nat, p: nat, k: nat) {
    forall q: nat, j: nat {:trigger Has(pages, q, j)} :: Has(pages, q, j) && Before(q, j, p, k) ==>
      SlotAccepted(pages[q], HeaderOf(pages[q]).freeEnd, SlotIn(pages, q, j), nextId)
  }

  /** The index holds exactly the active slots met so far. */
  ghost predicate IndexedUpTo(pages: seq<seq<byte>>, locations: seq<Location>, p: nat, k: nat) {
    && (forall q: nat, j: nat {:trigger Active(pages, q, j)} :: Active(pages, q, j) && Before(q, j, p, k) ==>
          SlotIn(pages, q, j).id < |locations| && locations[SlotIn(pages, q, j).id] == Location(q, j, true))
    && (forall id: nat {:trigger locations[id]} :: id < |locations| && locations[id].alive ==>
          && Active(pages, locations[id].pageIndex, locations[id].slotIndex)
          && Before(locations[id].pageIndex, locations[id].slotIndex, p, k)
          && SlotIn(pages, locations[id].pageIndex, locations[id].slotIndex).id == id)
  }

  lemma IndexSkip(pages: seq<seq<byte>>, locations: seq<Location>, p: nat, k: nat)
    requires IndexedUpTo(pages, locations, p, k) && !Active(pages, p, k)
    ensures IndexedUpTo(pages, locations, p, k + 1)
  {
    hide Has;
    assert forall q: nat, j: nat {:trigger Active(pages, q, j)} ::
      Active(pages, q, j) && Before(q, j, p, k + 1) ==> Before(q, j, p, k);
  }

  lemma IndexAdd(pages: seq<seq<byte>>, locations: seq<Location>, p: nat, k: nat)
    requires IndexedUpTo(pages, locations, p, k) && Active(pages, p, k)
    requires SlotIn(pages, p, k).id < |locations| && !locations[SlotIn(pages, p, k).id].alive
    ensures var locations' := locations[SlotIn(pages, p, k).id := Location(p, k, true)];
            IndexedUpTo(pages, locations', p, k + 1) && |LiveIds(locations')| == |LiveIds(locations)| + 1
  {
    hide Slots, Readable, SlotIn;
    var id := SlotIn(pages, p, k).id;
    var locations' := locations[id := Location(p, k, true)];
    forall q: nat, j: nat | Active(pages, q, j) && Before(q, j, p, k + 1)
      ensures SlotIn(pages, q, j).id < |locations'| && locations'[SlotIn(pages, q, j).id] == Location(q, j, true)
    {
      assert Before(q, j, p, k) || (q == p && j == k);
    }
    forall x: nat | x < |locations'| && locations'[x].alive
      ensures Active(pages, locations'[x].pageIndex, locations'[x].slotIndex)
      ensures Before(locations'[x].pageIndex, locations'[x].slotIndex, p, k + 1)
      ensures SlotIn(pages, locations'[x].pageIndex, locations'[x].slotIndex).id == x
    {
      if x != id {
        assert locations[x].alive;
      }
    }
    OneMoreLive(locations, id, Location(p, k, true));
  }

  lemma OneMoreLive(locations: seq<Location>, id: nat, location: Location)
    requires id < |locations| && !locations[id].alive && location.alive
    ensures |LiveIds(locations[id := location])| == |LiveIds(locations)| + 1
  {
    assert LiveIds(locations[id := location]) == LiveIds(locations) + {id} && id !in LiveIds(locations);
  }

  /** An id that is live already has a second active slot. */
  lemma IndexClash(pages: seq<seq<byte>>, locations: seq<Location>, p: nat, k: nat)
    requires IndexedUpTo(pages, locations, p, k) && Active(pages, p, k)
    requires SlotIn(pages, p, k).id < |locations| && locations[SlotIn(pages, p, k).id].alive
    ensures !UniquelyActive(pages)
  {
    hide Slots, Readable;
    var location := locations[SlotIn(pages, p, k).id];
    assert Active(pages, location.pageIndex, location.slotIndex);
  }

  lemma AcceptOneMore(pages: seq<seq<byte>>, nextId: nat, p: nat, k: nat)
    requires Has(pages, p, k) && AcceptedUpTo(pages, nextId, p, k)
    requires SlotAccepted(pages[p], HeaderOf(pages[p]).freeEnd, SlotIn(pages, p, k), nextId)
    ensures AcceptedUpTo(pages, nextId, p, k + 1)
  {
    hide Slots, Readable, SlotAccepted, HeaderOf;
  }

  /** Past the last slot of a page the walk stands at the start of the next. */
  lemma NextPage(pages: seq<seq<byte>>, nextId: nat, locations: seq<Location>, p: nat)
    requires p < |pages| && Readable(pages[p], p)
    requires IndexedUpTo(pages, locations, p, |Slots(pages[p], p)|)
    requires AcceptedUpTo(pages, nextId, p, |Slots(pages[p], p)|)
    ensures IndexedUpTo(pages, locations, p + 1, 0) && AcceptedUpTo(pages, nextId, p + 1, 0)
  {
    hide Slots, SlotAccepted, HeaderOf;
  }

  /** At the end of the file the index is complete, and live ids are the ids with an active slot. */
  lemma IndexComplete(pages: seq<seq<byte>>, nextId: nat, locations: seq<Location>)
    requires IndexedUpTo(pages, locations, |pages|, 0) && AcceptedUpTo(pages, nextId, |pages|, 0)
    ensures Indexed(pages, locations) && SlotsAccepted(pages, nextId) && UniquelyActive(pages)
    ensures LiveIds(locations) == ActiveIds(pages, nextId)
  {
    hide Slots, Readable, HeaderOf;
    assert forall q: nat, j: nat :: Has(pages, q, j) ==> Before(q, j, |pages|, 0);
    assert forall q: nat, j: nat :: Active(pages, q, j) ==> Has(pages, q, j);
    LiveIdsAreActive(pages, nextId, locations);
  }

  lemma LiveIdsAreActive(pages: seq<seq<byte>>, nextId: nat, locations: seq<Location>)
    requires Indexed(pages, locations)
    requires forall p: nat, k: nat {:trigger Has(pages, p, k)} :: Has(pages, p, k) ==> SlotIn(pages, p, k).id < nextId
    ensures LiveIds(locations) == ActiveIds(pages, nextId)
  {
    hide Slots, Readable;
    forall id: nat | id in LiveIds(locations) ensures id in ActiveIds(pages, nextId) {
      assert Active(pages, locations[id].pageIndex, locations[id].slotIndex);
      assert Has(pages, locations[id].pageIndex, locations[id].slotIndex);
    }
    forall id: nat | id in ActiveIds(pages, nextId) ensures id in LiveIds(locations) {
      var p: nat, k: nat :| Active(pages, p, k) && SlotIn(pages, p, k).id == id;
    }
  }

  // ----- Reopening -----

  /** Two indexes of the same pages have the same live ids, at the same places. */
  lemma IndexUnique(pages: seq<seq<byte>>, a: seq<Location>, b: seq<Location>)
    requires Indexed(pages, a) && Indexed(pages, b)
    ensures LiveIds(a) == LiveIds(b)
    ensures forall id: nat :: id in LiveIds(a) ==> a[id] == b[id]
  {
    hide Slots, Readable;
    forall id: nat | id in LiveIds(a) ensures id in LiveIds(b) && a[id] == b[id] {
      assert Active(pages, a[id].pageIndex, a[id].slotIndex);
    }
    forall id: nat | id in LiveIds(b) ensures id in LiveIds(a) {
      assert Active(pages, b[id].pageIndex, b[id].slotIndex);
    }
  }

  lemma AcceptedWhenSound(pages: seq<seq<byte>>, nextId: nat, liveCount: nat, locations: seq<Location>)
    requires Sound(pages, nextId, liveCount, locations)
    ensures forall p :: 0 <= p < |pages| ==> Readable(pages[p], p)
    ensures SlotsAccepted(pages, nextId) && UniquelyActive(pages)
    ensures |ActiveIds(pages, nextId)| == liveCount && nextId <= |locations|
  {
    hide BsonFormat.ValidDocument, HeaderOf, ValidHeader;
    forall p | 0 <= p < |pages| ensures Readable(pages[p], p) {
      assert PageOk(pages[p], p);
    }
    forall p: nat, k: nat | Has(pages, p, k)
      ensures SlotAccepted(pages[p], HeaderOf(pages[p]).freeEnd, SlotIn(pages, p, k), nextId)
    {
      assert PageOk(pages[p], p);
      TilesInBounds(Slots(pages[p], p), HeaderOf(pages[p]).freeEnd, k);
    }
    LiveIdsAreActive(pages, nextId, locations);
  }

  ghost predicate NoneFits(pages: seq<seq<byte>>, size: nat)
    requires forall p :: 0 <= p < |pages| ==> |pages[p]| == PAGE_SIZE
  {
    forall p :: 0 <= p < |pages| ==> !Fits(HeaderOf(pages[p]), size)
  }

  /** An object of the largest size takes a page of its own, and leaves no room in it. */
  lemma LargestTakesPage(pages: seq<seq<byte>>, p: nat, id: u64, doc: seq<byte>)
    requires PagesOk(pages) && p < |pages| && p == |pages| - 1 && NoneFits(pages[..p], MAX_OBJECT_SIZE)
    requires |doc| == MAX_OBJECT_SIZE && Fits(HeaderOf(pages[p]), |doc|)
    ensures |Placed(pages[p], id, doc)| == PAGE_SIZE
    ensures NoneFits(pages[p := Placed(pages[p], id, doc)], MAX_OBJECT_SIZE)
  {
    hide Placed, HeaderOf, Slots, Payload, Tiled;
    assert PageOk(pages[p], p);
    PlacedHeader(pages[p], p, id, doc);
    assert forall q :: 0 <= q < p ==> pages[..p][q] == pages[q];
  }

  // ----- The open file -----

  class ObjectFile {
    var disk: seq<byte>
    var header: FileHeader
    var locations: seq<Location>  // its length is the capacity

    ghost predicate Shaped()
      reads this
    {
      && |disk| == PageStart(header.pageCount)
      && HeaderShape(header) && header.version == FILE_VERSION && header.pageSize == PAGE_SIZE
      && header.pageCount <= UINT32_MAX + 1
    }

    ghost function PageList(): (pages: seq<seq<byte>>)
      requires Shaped()
      reads this
      ensures |pages| == header.pageCount
    {
      Pages(disk, header.pageCount)
    }

    /** The header on disk is the one in memory, and pages and index agree. */
    ghost predicate Valid()
      reads this
    {
      && Shaped() && IndexSize(|locations|)
      && ReadAt(disk, 0, FILE_HEADER_SIZE) == EncodeFileHeader(header)
      && Sound(PageList(), header.nextId, header.liveCount, locations)
    }

    /** The abstract state: the document under each live id. */
    ghost function Contents(): (m: map<nat, seq<byte>>)
      requires Valid()
      reads this
      ensures m.Keys == LiveIds(locations)
    {
      Objects(PageList(), header.nextId, locations)
    }

    lemma ContentsValid()
      requires Valid()
      ensures forall id :: id in Contents() ==> BsonFormat.ValidDocument(Contents()[id])
    {
      hide Sound, Objects, Pages, EncodeFileHeader, ReadAt, BsonFormat.ValidDocument;
      ObjectsValid(PageList(), header.nextId, header.liveCount, locations);
    }

    /** One more page can be appended. */
    ghost predicate CanGrow()
      reads this
    {
      header.pageCount <= UINT32_MAX
    }

    /** The slot of a live object is large enough for a document of the size. */
    ghost predicate FitsSlot(id: nat, size: nat)
      requires Valid()
      reads this
    {
      && id in Contents() && id < |locations| && Has(PageList(), locations[id].pageIndex, locations[id].slotIndex)
      && size <= SlotIn(PageList(), locations[id].pageIndex, locations[id].slotIndex).capacity
    }

    /** No page has room for an object of the largest size. */
    ghost predicate AllTaken()
      requires Shaped()
      reads this
    {
      NoneFits(PageList(), MAX_OBJECT_SIZE)
    }

    constructor () {
      disk, locations := [], [];
      header := FileHeader([], 0, 0, 0, 0, 0, []);
    }

    method Initialize(magic: seq<byte>)
      requires |magic| == 8
      modifies this
      ensures Valid() && Contents() == map[] && header.nextId == 0 && header.pageCount == 0 && header.magic == magic
    {
      header := FileHeader(magic, FILE_VERSION, PAGE_SIZE, 0, 0, 0, seq(24, _ => 0));
      locations := [];
      disk := EncodeFileHeader(header);
      assert LiveIds(locations) == {};
    }

    /** The index grows by doubling, as long as its size stays below SIZE_MAX; the new entries are dead. */
    method EnsureLocationCapacity(required: nat) returns (ok: bool)
      requires IndexSize(|locations|)
      modifies this`locations
      ensures IndexSize(|locations|) && |old(locations)| <= |locations|
      ensures ok <==> required <= MAX_LOCATIONS
      ensures ok ==> required <= |locations|
      ensures !ok ==> locations == old(locations)
      ensures locations[..|old(locations)|] == old(locations)
      ensures forall i :: |old(locations)| <= i < |locations| ==> !locations[i].alive
    {
      IndexSizeBounded(|locations|);
      if required <= |locations| {
        return true;
      }
      InitialDoubles();
      var capacity := if locations != [] then |locations| else INITIAL_LOCATIONS;
      while capacity < required
        invariant Doubles(capacity) && |locations| <= capacity
        decreases required - capacity
      {
        if capacity > SIZE_MAX / 2 {
          return false;
        }
        capacity := capacity * 2;
      }
      IndexSizeBounded(capacity);
      locations := locations + seq(capacity - |locations|, _ => Location(0, 0, false));
      ok := true;
    }

    method WriteFileHeader()
      requires Shaped()
      modifies this`disk
      ensures Shaped() && PageList() == old(PageList())
      ensures ReadAt(disk, 0, FILE_HEADER_SIZE) == EncodeFileHeader(header)
    {
      WriteHeaderKeepsPages(disk, header.pageCount, EncodeFileHeader(header));
      disk := WriteAt(disk, 0, EncodeFileHeader(header));
    }

    /** A write inside one page. */
    method WriteToPage(p: nat, at: nat, data: seq<byte>)
      requires Shaped() && p < header.pageCount && at + |data| <= PAGE_SIZE
      modifies this`disk
      ensures Shaped() && PageList() == old(PageList())[p := WriteAt(old(PageList())[p], at, data)]
      ensures ReadAt(disk, 0, FILE_HEADER_SIZE) == ReadAt(old(disk), 0, FILE_HEADER_SIZE)
    {
      WriteInPage(disk, header.pageCount, p, at, data);
      disk := WriteAt(disk, PageStart(p) + at, data);
    }

    method ReadPageHeader(p: nat) returns (h: PageHeader)
      requires Shaped() && p < header.pageCount
      ensures h == HeaderOf(PageList()[p])
    {
      ReadInPage(disk, p, 0, PAGE_HEADER_SIZE);
      h := DecodeHeader(ReadAt(disk, PageStart(p), PAGE_HEADER_SIZE));
    }

    method AppendPage() returns (ok: bool, p: nat)
      requires Valid()
      modifies this`disk, this`header
      ensures Valid() && Contents() == old(Contents())
      ensures ok == old(CanGrow())
      ensures header == if ok then old(header).(pageCount := old(header.pageCount) + 1) else old(header)
      ensures ok ==> p == old(header.pageCount) && HeaderOf(PageList()[p]) == EmptyHeader(p)
      ensures ok ==> PageList()[..p] == old(PageList())
    {
      hide Sound, Objects, Pages, PageOk, EncodeFileHeader, EncodeHeader, DecodeHeader, Slots, LiveIds, ReadAt, WriteAt;
      if header.pageCount > UINT32_MAX {
        return false, 0;
      }
      p := header.pageCount;
      ghost var pages := PageList();
      var zeros := seq(PAGE_SIZE, _ => 0);
      GrowPages(disk, p, zeros);
      disk := disk + zeros;
      header := header.(pageCount := p + 1);
      assert PageList() == pages + [zeros];
      WriteToPage(p, 0, EncodeHeader(EmptyHeader(p)));
      ghost var page := PageList()[p];
      assert PageList() == pages + [page];
      WriteFileHeader();
      ok := true;
      ReadBackWrite(zeros, 0, EncodeHeader(EmptyHeader(p)));
      EmptyPageOk(page, p);
      EmptyPageSound(pages, header.nextId, header.liveCount, locations, page);
    }

    /** First fit over the pages, a new page when none has room. */
    method FindPageForObject(size: nat) returns (ok: bool, p: nat)
      requires Valid()
      modifies this`disk, this`header
      ensures Valid() && Contents() == old(Contents())
      ensures header == old(header).(pageCount := header.pageCount)
      ensures ok ==> p < header.pageCount && Fits(HeaderOf(PageList()[p]), size) && size <= MAX_OBJECT_SIZE
      ensures ok ==> forall q :: 0 <= q < p ==> !Fits(HeaderOf(PageList()[q]), size)
      ensures ok && p < old(header.pageCount) ==> disk == old(disk) && header == old(header)
      ensures old(header.pageCount) <= header.pageCount
      ensures ok && p >= old(header.pageCount) ==>
                p == old(header.pageCount) && header.pageCount == p + 1 && PageList()[..p] == old(PageList())
      ensures size > MAX_OBJECT_SIZE ==> !ok
      ensures size <= MAX_OBJECT_SIZE && old(CanGrow()) ==> ok
    {
      hide Sound, Objects, Pages, EncodeFileHeader, DecodeHeader, LiveIds, ReadAt;
      if SLOT_SIZE + size > PAGE_SIZE - PAGE_HEADER_SIZE {
        return false, 0;
      }
      p := 0;
      while p < header.pageCount
        invariant p <= header.pageCount
        invariant disk == old(disk) && header == old(header)
        invariant forall q :: 0 <= q < p ==> !Fits(HeaderOf(PageList()[q]), size)
      {
        var page := ReadPageHeader(p);
        if Fits(page, size) {
          return true, p;
        }
        p := p + 1;
      }
      ghost var pages := PageList();
      ok, p := AppendPage();
      assert ok ==> forall q :: 0 <= q < p ==> PageList()[q] == PageList()[..p][q] == pages[q];
    }

    /** Payload, slot and page header of a new active slot; the index is left to the caller. */
    method PlaceObject(id: u64, doc: seq<byte>) returns (ok: bool, location: Location, ghost before: seq<seq<byte>>)
      requires Valid()
      modifies this`disk, this`header
      ensures Shaped() && header == old(header).(pageCount := header.pageCount)
      ensures ReadAt(disk, 0, FILE_HEADER_SIZE) == EncodeFileHeader(header)
      ensures Sound(before, header.nextId, header.liveCount, locations)
      ensures Objects(before, header.nextId, locations) == old(Contents())
      ensures !ok ==> PageList() == before
      ensures ok ==>
                var p := location.pageIndex;
                && p < |before| && Readable(before[p], p) && Fits(HeaderOf(before[p]), |doc|)
                && location == Location(p, |Slots(before[p], p)|, true)
                && PageList() == before[p := Placed(before[p], id, doc)]
      ensures |doc| > MAX_OBJECT_SIZE ==> !ok
      ensures |doc| <= MAX_OBJECT_SIZE && old(CanGrow()) ==> ok
      ensures old(header.pageCount) <= header.pageCount
      ensures ok && |doc| == MAX_OBJECT_SIZE && old(AllTaken()) ==>
                header.pageCount == old(header.pageCount) + 1 && AllTaken()
    {
      hide Sound, Objects, Pages, EncodeFileHeader, DecodeHeader, LiveIds, ReadAt, WriteAt, EncodeSlot, EncodeHeader;
      var p;
      ok, p := FindPageForObject(|doc|);
      before := PageList();
      location := Location(0, 0, false);
      if ok {
        SoundReadable(before, header.nextId, header.liveCount, locations, p);
        var page := ReadPageHeader(p);
        var slot := Slot(id, page.freeEnd - |doc|, |doc|, |doc|, SLOT_ACTIVE);
        WriteToPage(p, slot.offset, doc);
        WriteToPage(p, SlotPosition(page.slotCount), EncodeSlot(slot));
        WriteToPage(p, 0, EncodeHeader(page.(slotCount := page.slotCount + 1, freeStart := page.freeStart + SLOT_SIZE,
                                             freeEnd := slot.offset)));
        location := Location(p, page.slotCount, true);
        if |doc| == MAX_OBJECT_SIZE && old(AllTaken()) {
          SoundPages(before, header.nextId, header.liveCount, locations);
          LargestTakesPage(before, p, id, doc);
        }
      }
    }

    /** The storing part of an insert: a valid document under the next id. */
    method StoreNew(doc: seq<byte>) returns (ok: bool, id: nat)
      requires Valid() && BsonFormat.ValidDocument(doc) && header.nextId < SIZE_MAX
      modifies this
      ensures Valid() && header.magic == old(header.magic) && old(header.pageCount) <= header.pageCount
      ensures ok ==> |doc| <= MAX_OBJECT_SIZE && id == old(header.nextId) < MAX_LOCATIONS
                     && header.nextId == id + 1 && Contents() == old(Contents())[id := doc]
      ensures !ok ==> Contents() == old(Contents()) && header.nextId == old(header.nextId)
      ensures old(CanGrow()) && old(header.nextId) < MAX_LOCATIONS && |doc| <= MAX_OBJECT_SIZE ==> ok
      ensures ok && |doc| == MAX_OBJECT_SIZE && old(AllTaken()) ==>
                header.pageCount == old(header.pageCount) + 1 && AllTaken()
    {
      hide Sound, Objects, Pages, EncodeFileHeader, LiveIds, ReadAt, BsonFormat.ValidDocument, Placed, Slots;
      hide Fits, HeaderOf;
      ghost var known := locations;
      var grown := EnsureLocationCapacity(header.nextId + 1);
      if !grown {
        return false, 0;
      }
      MoreDeadLocations(PageList(), header.nextId, header.liveCount, known, locations);
      id := header.nextId;
      var location;
      ghost var before;
      ok, location, before := PlaceObject(id, doc);
      if ok {
        InsertSound(before, id, header.liveCount, locations, location.pageIndex, doc);
        LiveCountBounded(before, id, header.liveCount, locations);
        locations := locations[id := location];
        header := header.(nextId := id + 1, liveCount := header.liveCount + 1);
        WriteFileHeader();
      }
    }

    /** linklet_object_file_insert: the next id, and the document under it. */
    method Insert(bson: seq<byte>) returns (ok: bool, id: nat)
      requires Valid()
      modifies this
      ensures Valid() && header.magic == old(header.magic) && old(header.pageCount) <= header.pageCount
      ensures var doc := BsonReader.DocumentBytes(bson);
              && (ok ==> BsonFormat.ValidDocument(doc) && |doc| <= MAX_OBJECT_SIZE)
              && (ok ==> id == old(header.nextId) < MAX_LOCATIONS
                         && header.nextId == id + 1 && Contents() == old(Contents())[id := doc])
              && (!ok ==> Contents() == old(Contents()) && header.nextId == old(header.nextId))
              && ((old(CanGrow()) && old(header.nextId) < MAX_LOCATIONS && BsonFormat.ValidDocument(doc)
                   && |doc| <= MAX_OBJECT_SIZE) ==> ok)
              && (ok && |doc| == MAX_OBJECT_SIZE && old(AllTaken()) ==>
                    header.pageCount == old(header.pageCount) + 1 && AllTaken())
    {
      hide Sound, Objects, Pages, EncodeFileHeader, LiveIds, ReadAt, BsonFormat.ValidDocument, BsonReader.DocumentBytes;
      var doc := BsonReader.DocumentBytes(bson);
      var valid := BsonValidator.Validate(doc);
      if !valid || header.nextId >= SIZE_MAX {
        return false, 0;
      }
      ok, id := StoreNew(doc);
    }

    /** linklet_object_file_exists */
    method Exists(id: u64) returns (r: bool)
      requires Valid()
      ensures r <==> id in Contents()
    {
      LiveIdsAreOld(PageList(), header.nextId, header.liveCount, locations);
      assert id in LiveIds(locations) <==> id < |locations| && locations[id].alive;
      r := id < header.nextId && locations[id].alive;
    }

    method ReadSlot(location: Location) returns (slot: Slot)
      requires Shaped() && Has(PageList(), location.pageIndex, location.slotIndex)
      ensures slot == SlotIn(PageList(), location.pageIndex, location.slotIndex)
    {
      ReadInPage(disk, location.pageIndex, SlotPosition(location.slotIndex), SLOT_SIZE);
      slot := DecodeSlot(ReadAt(disk, PageStart(location.pageIndex) + SlotPosition(location.slotIndex), SLOT_SIZE));
    }

    /** linklet_object_file_read: the last document written for the id. */
    method Read(id: u64) returns (ok: bool, doc: seq<byte>)
      requires Valid()
      ensures ok <==> id in Contents()
      ensures ok ==> doc == Contents()[id]
    {
      hide Sound, Pages, EncodeFileHeader, ReadAt, BsonFormat.ValidDocument, Slots, PageOk, Readable;
      doc := [];
      ok := Exists(id);
      if ok {
        LiveSlot(PageList(), header.nextId, header.liveCount, locations, id);
        var slot := ReadSlot(locations[id]);
        ReadInPage(disk, locations[id].pageIndex, slot.offset, slot.length);
        doc := ReadAt(disk, PageStart(locations[id].pageIndex) + slot.offset, slot.length);
      }
    }

    /** mark_location_deleted */
    method MarkLocationDeleted(location: Location)
      requires Shaped() && Active(PageList(), location.pageIndex, location.slotIndex)
      modifies this`disk
      ensures Shaped()
      ensures var p := location.pageIndex;
              PageList() == old(PageList())[p := MarkedDeleted(old(PageList())[p], p, location.slotIndex)]
      ensures ReadAt(disk, 0, FILE_HEADER_SIZE) == ReadAt(old(disk), 0, FILE_HEADER_SIZE)
    {
      hide Pages, ReadAt, WriteAt, EncodeSlot, DecodeSlot, HeaderOf;
      var slot := ReadSlot(location);
      WriteToPage(location.pageIndex, SlotPosition(location.slotIndex), EncodeSlot(slot.(flags := SLOT_DELETED)));
    }

    /** The in-place update: the document fits the capacity of its slot. */
    method Rewrite(id: u64, slot: Slot, doc: seq<byte>)
      requires Valid() && id in Contents() && BsonFormat.ValidDocument(doc)
      requires locations[id].alive && Active(PageList(), locations[id].pageIndex, locations[id].slotIndex)
      requires slot == SlotIn(PageList(), locations[id].pageIndex, locations[id].slotIndex)
      requires |doc| <= slot.capacity
      modifies this`disk
      ensures Valid() && Contents() == old(Contents())[id := doc]
    {
      hide Sound, Objects, Pages, EncodeFileHeader, ReadAt, BsonFormat.ValidDocument, EncodeSlot, DecodeSlot;
      hide HeaderOf, WriteAt;
      var location := locations[id];
      RewriteSound(PageList(), header.nextId, header.liveCount, locations, id, doc);
      WriteToPage(location.pageIndex, slot.offset, doc);
      WriteToPage(location.pageIndex, SlotPosition(location.slotIndex), EncodeSlot(slot.(length := |doc|)));
      ghost var p, pages := location.pageIndex, old(PageList());
      assert PageList() == pages[p := Rewritten(pages[p], p, location.slotIndex, doc)];
    }

    /** The moving update: a new slot first, then the old one is marked deleted. */
    method Relocate(id: u64, doc: seq<byte>) returns (ok: bool)
      requires Valid() && id in Contents() && BsonFormat.ValidDocument(doc)
      modifies this
      ensures Valid() && header.magic == old(header.magic) && header.nextId == old(header.nextId)
      ensures old(header.pageCount) <= header.pageCount
      ensures Contents() == if ok then old(Contents())[id := doc] else old(Contents())
      ensures ok ==> |doc| <= MAX_OBJECT_SIZE
      ensures old(CanGrow()) && |doc| <= MAX_OBJECT_SIZE ==> ok
      ensures |locations| == |old(locations)| > id
      ensures locations == old(locations)[id := locations[id]]
      ensures ok <==> locations[id] != old(locations[id])
    {
      hide Sound, Objects, Pages, EncodeFileHeader, ReadAt, BsonFormat.ValidDocument, Placed, Slots, Fits;
      hide HeaderOf, MarkedDeleted;
      LiveSlot(PageList(), header.nextId, header.liveCount, locations, id);
      var oldLocation := locations[id];
      var newLocation;
      ghost var before;
      ok, newLocation, before := PlaceObject(id, doc);
      if ok {
        LiveSlot(before, header.nextId, header.liveCount, locations, id);
        RelocateSound(before, header.nextId, header.liveCount, locations, id, doc, newLocation.pageIndex);
        MarkLocationDeleted(oldLocation);
        locations := locations[id := newLocation];
      }
    }

    /** The storing part of an update: a valid document for a live id. */
    method Replace(id: u64, doc: seq<byte>) returns (ok: bool)
      requires Valid() && id in Contents() && BsonFormat.ValidDocument(doc)
      modifies this
      ensures Valid() && header.magic == old(header.magic) && header.nextId == old(header.nextId)
      ensures old(header.pageCount) <= header.pageCount
      ensures Contents() == if ok then old(Contents())[id := doc] else old(Contents())
      ensures ok ==> |doc| <= MAX_OBJECT_SIZE
      ensures old(CanGrow()) && |doc| <= MAX_OBJECT_SIZE ==> ok
      ensures |locations| == |old(locations)| > id && locations == old(locations)[id := locations[id]]
      ensures old(FitsSlot(id, |doc|)) ==> ok && locations == old(locations) && header == old(header)
      ensures !old(FitsSlot(id, |doc|)) ==> (ok <==> locations[id] != old(locations[id]))
    {
      hide Sound, Objects, Pages, EncodeFileHeader, ReadAt, BsonFormat.ValidDocument, HeaderOf, Slots;
      hide SlotsSane, Indexed;
      LiveSlot(PageList(), header.nextId, header.liveCount, locations, id);
      var slot := ReadSlot(locations[id]);
      if |doc| <= slot.capacity {
        SoundPages(PageList(), header.nextId, header.liveCount, locations);
        CapacityBounded(PageList(), locations[id].pageIndex, locations[id].slotIndex);
        Rewrite(id, slot, doc);
        ok := true;
      } else {
        ok := Relocate(id, doc);
      }
    }

    /** linklet_object_file_update */
    method Update(id: u64, bson: seq<byte>) returns (ok: bool)
      requires Valid()
      modifies this
      ensures Valid() && header.magic == old(header.magic) && header.nextId == old(header.nextId)
      ensures old(header.pageCount) <= header.pageCount
      ensures var doc := BsonReader.DocumentBytes(bson);
              && (ok ==> id in old(Contents()) && BsonFormat.ValidDocument(doc) && |doc| <= MAX_OBJECT_SIZE)
              && Contents() == (if ok then old(Contents())[id := doc] else old(Contents()))
              && ((old(CanGrow()) && id in old(Contents()) && BsonFormat.ValidDocument(doc)
                   && |doc| <= MAX_OBJECT_SIZE) ==> ok)
              && |locations| == |old(locations)|
              && (forall x :: 0 <= x < |locations| && x != id ==> locations[x] == old(locations)[x])
              && (old(FitsSlot(id, |doc|)) && BsonFormat.ValidDocument(doc) ==>
                    ok && locations == old(locations) && header == old(header))
              && (ok && !old(FitsSlot(id, |doc|)) ==> id < |locations| && locations[id] != old(locations)[id])
    {
      hide Sound, Objects, Pages, EncodeFileHeader, ReadAt, BsonFormat.ValidDocument, BsonReader.DocumentBytes;
      var doc := BsonReader.DocumentBytes(bson);
      var live := Exists(id);
      if !live {
        return false;
      }
      var valid := BsonValidator.Validate(doc);
      if !valid {
        return false;
      }
      ok := Replace(id, doc);
    }

    /** linklet_object_file_delete */
    method Delete(id: u64) returns (ok: bool)
      requires Valid()
      modifies this
      ensures Valid() && header.magic == old(header.magic) && header.nextId == old(header.nextId)
      ensures header.pageCount == old(header.pageCount)
      ensures ok <==> id in old(Contents())
      ensures Contents() == if ok then old(Contents()) - {id} else old(Contents())
    {
      hide Sound, Objects, Pages, EncodeFileHeader, LiveIds, ReadAt, BsonFormat.ValidDocument, MarkedDeleted, Slots;
      ok := Exists(id);
      if ok {
        ghost var pages := PageList();
        LiveSlot(pages, header.nextId, header.liveCount, locations, id);
        DeleteSound(pages, header.nextId, header.liveCount, locations, id);
        MarkLocationDeleted(locations[id]);
        locations := locations[id := locations[id].(alive := false)];
        header := header.(liveCount := header.liveCount - 1);
        WriteFileHeader();
      }
    }

    /** The checks on one slot, and its entry in the index when it is active. */
    method IndexSlot(p: nat, k: nat) returns (ok: bool, active: bool)
      requires Shaped() && Has(PageList(), p, k) && header.nextId <= |locations|
      requires IndexedUpTo(PageList(), locations, p, k) && AcceptedUpTo(PageList(), header.nextId, p, k)
      modifies this`locations
      ensures |locations| == |old(locations)|
      ensures ok ==> IndexedUpTo(PageList(), locations, p, k + 1) && AcceptedUpTo(PageList(), header.nextId, p, k + 1)
      ensures ok ==> |LiveIds(locations)| == |LiveIds(old(locations))| + if active then 1 else 0
      ensures !ok ==> !(SlotsAccepted(PageList(), header.nextId) && UniquelyActive(PageList()))
    {
      hide Pages, Slots, Readable, ReadAt, DecodeSlot, DecodeHeader, BsonFormat.ValidDocument, IndexedUpTo;
      hide AcceptedUpTo, LiveIds, UniquelyActive;
      active := false;
      ghost var pages := PageList();
      var page := ReadPageHeader(p);
      var slot := ReadSlot(Location(p, k, true));
      assert Has(pages, p, k);
      if slot.id >= header.nextId || slot.length > slot.capacity || slot.offset < page.freeEnd
         || slot.offset + slot.capacity > PAGE_SIZE {
        return false, false;
      }
      if slot.flags == SLOT_ACTIVE {
        if locations[slot.id].alive {
          IndexClash(pages, locations, p, k);
          return false, false;
        }
        ReadInPage(disk, p, slot.offset, slot.length);
        var bytes := ReadAt(disk, PageStart(p) + slot.offset, slot.length);
        var valid := BsonValidator.Validate(bytes);
        if !valid {
          return false, false;
        }
        IndexAdd(pages, locations, p, k);
        locations := locations[slot.id := Location(p, k, true)];
        active := true;
      } else {
        IndexSkip(pages, locations, p, k);
      }
      AcceptOneMore(pages, header.nextId, p, k);
      ok := true;
    }

    /** The loop over the slots of one page. */
    method IndexPage(p: nat) returns (ok: bool, live: nat)
      requires Shaped() && p < header.pageCount && header.nextId <= |locations|
      requires IndexedUpTo(PageList(), locations, p, 0) && AcceptedUpTo(PageList(), header.nextId, p, 0)
      modifies this`locations
      ensures |locations| == |old(locations)|
      ensures ok ==> Readable(PageList()[p], p)
      ensures ok ==> IndexedUpTo(PageList(), locations, p + 1, 0) && AcceptedUpTo(PageList(), header.nextId, p + 1, 0)
      ensures ok ==> |LiveIds(locations)| == |LiveIds(old(locations))| + live
      ensures !ok ==>
                !(Readable(PageList()[p], p) && SlotsAccepted(PageList(), header.nextId) && UniquelyActive(PageList()))
    {
      hide Pages, Slots, ReadAt, DecodeHeader, IndexedUpTo, AcceptedUpTo, LiveIds, UniquelyActive, SlotsAccepted;
      live := 0;
      var page := ReadPageHeader(p);
      if !ValidHeader(page, p) {
        return false, 0;
      }
      var k := 0;
      while k < page.slotCount
        invariant k <= page.slotCount && |locations| == |old(locations)|
        invariant IndexedUpTo(PageList(), locations, p, k) && AcceptedUpTo(PageList(), header.nextId, p, k)
        invariant |LiveIds(locations)| == |LiveIds(old(locations))| + live
      {
        var active;
        ok, active := IndexSlot(p, k);
        if !ok {
          return false, 0;
        }
        live := live + if active then 1 else 0;
        k := k + 1;
      }
      NextPage(PageList(), header.nextId, locations, p);
      ok := true;
    }

    /** The loop over the pages: whether every check holds, and the rebuilt index. */
    method IndexPages() returns (ok: bool)
      requires Shaped() && header.nextId <= |locations|
      requires forall i :: 0 <= i < |locations| ==> !locations[i].alive
      modifies this`locations
      ensures |locations| == |old(locations)|
      ensures ok <==>
              && (forall p :: 0 <= p < |PageList()| ==> Readable(PageList()[p], p))
              && SlotsAccepted(PageList(), header.nextId) && UniquelyActive(PageList())
              && |ActiveIds(PageList(), header.nextId)| == header.liveCount
      ensures ok ==> Indexed(PageList(), locations)
    {
      hide Pages, Slots, Readable, ActiveIds, UniquelyActive, SlotsAccepted, SlotAccepted, HeaderOf;
      var p, live := 0, 0;
      assert LiveIds(locations) == {};
      while p < header.pageCount
        invariant p <= header.pageCount && |locations| == |old(locations)|
        invariant forall q :: 0 <= q < p ==> Readable(PageList()[q], q)
        invariant IndexedUpTo(PageList(), locations, p, 0) && AcceptedUpTo(PageList(), header.nextId, p, 0)
        invariant |LiveIds(locations)| == live
      {
        var more;
        ok, more := IndexPage(p);
        if !ok {
          return false;
        }
        p, live := p + 1, live + more;
      }
      IndexComplete(PageList(), header.nextId, locations);
      ok := live == header.liveCount;
    }

    /** linklet_object_file_open: the checks on the bytes, and the index rebuilt from them. */
    method Open(bytes: seq<byte>, magic: seq<byte>) returns (ok: bool)
      modifies this
      ensures ok == Openable(bytes, magic)
      ensures ok ==> disk == bytes && header == DecodeFileHeader(ReadAt(bytes, 0, FILE_HEADER_SIZE))
      ensures ok ==> Shaped() && IndexSize(|locations|)
      ensures ok ==> header.nextId <= |locations| && Indexed(PageList(), locations)
    {
      hide DecodeFileHeader, ReadAt, Pages, Slots, ActiveIds, UniquelyActive, SlotsAccepted, Indexed, Readable;
      disk, locations := bytes, [];
      if |bytes| < FILE_HEADER_SIZE {
        return false;
      }
      header := DecodeFileHeader(ReadAt(bytes, 0, FILE_HEADER_SIZE));
      if !CompatibleHeader(header, magic) || |bytes| != PageStart(header.pageCount) {
        return false;
      }
      var indexed := EnsureLocationCapacity(header.nextId);
      if !indexed {
        return false;
      }
      ok := IndexPages();
    }
  }

  /**
   * Closing a file and opening its bytes again. It succeeds exactly when the page count is one that
   * open accepts, and then gives the same objects at the same places.
   */
  method Reopen(file: ObjectFile) returns (ok: bool, again: ObjectFile)
    requires file.Valid()
    ensures fresh(again)
    ensures ok <==> file.header.pageCount <= UINT32_MAX
    ensures ok ==> again.Valid() && again.header == file.header && again.Contents() == file.Contents()
    ensures ok ==> forall id: nat :: id in LiveIds(file.locations) ==> again.locations[id] == file.locations[id]
  {
    hide Sound, Indexed, Pages, Objects, DecodeFileHeader, EncodeFileHeader, ReadAt, LiveIds, ActiveIds;
    hide UniquelyActive, SlotsAccepted, Readable;
    again := new ObjectFile();
    ghost var h := file.header;
    ReopenAccepts(file.disk, h, file.locations);
    ok := again.Open(file.disk, file.header.magic);
    if ok {
      DecodeEncodedFileHeader(h);
      ReopenAgrees(Pages(file.disk, h.pageCount), h.nextId, h.liveCount, file.locations, again.locations);
    }
  }

  /**
   * The limit of append_page is one page higher than that of open: a file of 2^32 - 1 pages still
   * takes one more, and is then refused when it is opened.
   */
  method PageBeyondTheLimit(file: ObjectFile) returns (appended: bool, reopened: bool)
    requires file.Valid() && file.header.pageCount == UINT32_MAX
    modifies file
    ensures file.Valid() && appended && !reopened
  {
    var p, again;
    appended, p := file.AppendPage();
    reopened, again := Reopen(file);
  }

  /** The bytes of a valid file are accepted, unless there are more pages than open allows. */
  lemma ReopenAccepts(disk: seq<byte>, h: FileHeader, locations: seq<Location>)
    requires HeaderShape(h) && h.version == FILE_VERSION && h.pageSize == PAGE_SIZE
    requires |disk| == PageStart(h.pageCount) && ReadAt(disk, 0, FILE_HEADER_SIZE) == EncodeFileHeader(h)
    requires Sound(Pages(disk, h.pageCount), h.nextId, h.liveCount, locations) && IndexSize(|locations|)
    ensures Openable(disk, h.magic) <==> h.pageCount <= UINT32_MAX
  {
    hide Sound, DecodeFileHeader, EncodeFileHeader, ReadAt, Pages, ActiveIds, UniquelyActive, SlotsAccepted, Readable;
    DecodeEncodedFileHeader(h);
    IndexSizeBounded(|locations|);
    AcceptedWhenSound(Pages(disk, h.pageCount), h.nextId, h.liveCount, locations);
  }

  lemma ReopenAgrees(pages: seq<seq<byte>>, nextId: nat, liveCount: nat, locations: seq<Location>, again: seq<Location>)
    requires Sound(pages, nextId, liveCount, locations)
    requires Indexed(pages, again) && nextId <= |again|
    ensures Sound(pages, nextId, liveCount, again)
    ensures Objects(pages, nextId, again) == Objects(pages, nextId, locations)
    ensures LiveIds(again) == LiveIds(locations)
    ensures forall id: nat :: id in LiveIds(locations) ==> again[id] == locations[id]
  {
    hide Slots, Readable, PagesOk, SlotsSane, BsonFormat.ValidDocument;
    IndexUnique(pages, locations, again);
  }

  lemma SoundPages(pages: seq<seq<byte>>, nextId: nat, liveCount: nat, locations: seq<Location>)
    requires Sound(pages, nextId, liveCount, locations)
    ensures PagesOk(pages)
  {
  }

  /** A page of a sound file can be read. */
  lemma SoundReadable(pages: seq<seq<byte>>, nextId: nat, liveCount: nat, locations: seq<Location>, p: nat)
    requires Sound(pages, nextId, liveCount, locations) && p < |pages|
    ensures Readable(pages[p], p)
  {
    PageReadable(pages, p);
  }

  /** A live id has an active slot of its own, with its document in the page. */
  lemma LiveSlot(pages: seq<seq<byte>>, nextId: nat, liveCount: nat, locations: seq<Location>, id: nat)
    requires Sound(pages, nextId, liveCount, locations) && id in LiveIds(locations)
    ensures id < |locations| && locations[id].alive
    ensures var p, k := locations[id].pageIndex, locations[id].slotIndex;
            && Active(pages, p, k) && SlotIn(pages, p, k).id == id && InPage(SlotIn(pages, p, k))
            && SlotsSane(pages, nextId) && Indexed(pages, locations)
            && Objects(pages, nextId, locations)[id] == DocumentIn(pages, p, k)
  {
    hide BsonFormat.ValidDocument, Slots, PageOk, Payload, Readable, InPage;
    assert Active(pages, locations[id].pageIndex, locations[id].slotIndex);
    assert Has(pages, locations[id].pageIndex, locations[id].slotIndex);
  }

  /** No slot is larger than a page can hold. */
  lemma CapacityBounded(pages: seq<seq<byte>>, p: nat, k: nat)
    requires PagesOk(pages) && Has(pages, p, k)
    ensures SlotIn(pages, p, k).capacity <= MAX_OBJECT_SIZE
  {
    hide HeaderOf, SlotOk, BsonFormat.ValidDocument;
    assert PageOk(pages[p], p);
    TilesInBounds(Slots(pages[p], p), HeaderOf(pages[p]).freeEnd, k);
  }

  /** Extending the index by dead entries changes nothing. */
  lemma MoreDeadLocations(pages: seq<seq<byte>>, nextId: nat, liveCount: nat, locations: seq<Location>,
                          more: seq<Location>)
    requires Sound(pages, nextId, liveCount, locations)
    requires |locations| <= |more| && more[..|locations|] == locations
    requires forall i :: |locations| <= i < |more| ==> !more[i].alive
    ensures Sound(pages, nextId, liveCount, more)
    ensures Objects(pages, nextId, more) == Objects(pages, nextId, locations)
  {
    hide BsonFormat.ValidDocument, Slots, PageOk, Payload, Readable, Indexed, SlotsSane;
    assert forall i: nat :: i < |locations| ==> more[i] == locations[i];
    assert LiveIds(more) == LiveIds(locations);
    MoreDeadIndexed(pages, locations, more);
  }

  lemma MoreDeadIndexed(pages: seq<seq<byte>>, locations: seq<Location>, more: seq<Location>)
    requires Indexed(pages, locations)
    requires |locations| <= |more| && forall i: nat :: i < |locations| ==> more[i] == locations[i]
    requires forall i :: |locations| <= i < |more| ==> !more[i].alive
    ensures Indexed(pages, more)
  {
    hide BsonFormat.ValidDocument, Slots, PageOk, Payload, Readable, Active;
  }

  lemma LiveCountBounded(pages: seq<seq<byte>>, nextId: nat, liveCount: nat, locations: seq<Location>)
    requires Sound(pages, nextId, liveCount, locations)
    ensures liveCount <= nextId
  {
    LiveIdsAreOld(pages, nextId, liveCount, locations);
    SizeBelow(LiveIds(locations), nextId);
  }

  /** An empty page at the end changes no object. */
  lemma EmptyPageSound(pages: seq<seq<byte>>, nextId: nat, liveCount: nat, locations: seq<Location>, page: seq<byte>)
    requires Sound(pages, nextId, liveCount, locations)
    requires PageOk(page, |pages|) && Slots(page, |pages|) == []
    ensures Sound(pages + [page], nextId, liveCount, locations)
    ensures Objects(pages + [page], nextId, locations) == Objects(pages, nextId, locations)
  {
    hide BsonFormat.ValidDocument, Slots, HeaderOf, Payload, Tiled, SlotOk, ValidHeader;
    var pages' := pages + [page];
    assert forall p: nat, k: nat {:trigger Has(pages', p, k)} :: Has(pages', p, k) ==> p < |pages| && Has(pages, p, k);
    assert forall p: nat, k: nat {:trigger Has(pages, p, k)} :: Has(pages, p, k) ==>
        pages'[p] == pages[p] && Has(pages', p, k);
    assert forall p: nat, k: nat {:trigger Active(pages', p, k)} :: Active(pages', p, k) <==> Active(pages, p, k);
    assert PagesOk(pages') && SlotsSane(pages', nextId) && Indexed(pages', locations);
    forall x | x in LiveIds(locations)
      ensures Objects(pages', nextId, locations)[x] == Objects(pages, nextId, locations)[x]
    {
      assert Active(pages, locations[x].pageIndex, locations[x].slotIndex);
    }
  }
}
