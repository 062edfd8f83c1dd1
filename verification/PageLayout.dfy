/**
 * One 64 KiB page of an object file: the slot directory grows up from byte 32, the payloads grow
 * down from the end. Structures are stored as their fields in order, little-endian.
 */
module PageLayout {
  import opened Bytes

  const PAGE_SIZE: nat := 0x1_0000
  const PAGE_HEADER_SIZE: nat := 32
  const SLOT_SIZE: nat := 24
  const PAGE_MAGIC: u32 := 0x4c4c5047
  const SLOT_ACTIVE: u32 := 1
  const SLOT_DELETED: u32 := 2

  /** The largest document that fits a page of its own. */
  const MAX_OBJECT_SIZE: nat := PAGE_SIZE - PAGE_HEADER_SIZE - SLOT_SIZE

  datatype PageHeader = PageHeader(magic: u32, pageIndex: u32, slotCount: u32, freeStart: u32, freeEnd: u32,
                                   reserved: seq<byte>)

  datatype Slot = Slot(id: u64, offset: u32, length: u32, capacity: u32, flags: u32)

  function EncodeHeader(h: PageHeader): (s: seq<byte>)
    requires |h.reserved| == 12
    ensures |s| == PAGE_HEADER_SIZE
  {
    StoreU32(h.magic) + (StoreU32(h.pageIndex) + (StoreU32(h.slotCount) +
    (StoreU32(h.freeStart) + (StoreU32(h.freeEnd) + h.reserved))))
  }

  function DecodeHeader(s: seq<byte>): (h: PageHeader)
    requires |s| == PAGE_HEADER_SIZE
    ensures |h.reserved| == 12
  {
    PageHeader(LoadU32(s), LoadU32(s[4..]), LoadU32(s[4..][4..]), LoadU32(s[4..][4..][4..]),
               LoadU32(s[4..][4..][4..][4..]), s[4..][4..][4..][4..][4..])
  }

  function EncodeSlot(slot: Slot): (s: seq<byte>)
    ensures |s| == SLOT_SIZE
  {
    StoreU64(slot.id) + (StoreU32(slot.offset) + (StoreU32(slot.length) +
    (StoreU32(slot.capacity) + StoreU32(slot.flags))))
  }

  function DecodeSlot(s: seq<byte>): Slot
    requires |s| == SLOT_SIZE
  {
    Slot(LoadU64(s), LoadU32(s[8..]), LoadU32(s[8..][4..]), LoadU32(s[8..][4..][4..]), LoadU32(s[8..][4..][4..][4..]))
  }

  lemma DecodeEncodedHeader(h: PageHeader)
    requires |h.reserved| == 12
    ensures DecodeHeader(EncodeHeader(h)) == h
  {
    var t5 := h.reserved;
    var t4 := StoreU32(h.freeEnd) + t5;
    var t3 := StoreU32(h.freeStart) + t4;
    var t2 := StoreU32(h.slotCount) + t3;
    var t1 := StoreU32(h.pageIndex) + t2;
    LoadStoreU32(h.freeEnd, t5);
    LoadStoreU32(h.freeStart, t4);
    LoadStoreU32(h.slotCount, t3);
    LoadStoreU32(h.pageIndex, t2);
    LoadStoreU32(h.magic, t1);
    hide LoadU32, StoreU32;
    assert (StoreU32(h.magic) + t1)[4..] == t1 && t1[4..] == t2 && t2[4..] == t3 && t3[4..] == t4 && t4[4..] == t5;
  }

  lemma DecodeEncodedSlot(slot: Slot)
    ensures DecodeSlot(EncodeSlot(slot)) == slot
  {
    var t4 := StoreU32(slot.flags);
    var t3 := StoreU32(slot.capacity) + t4;
    var t2 := StoreU32(slot.length) + t3;
    var t1 := StoreU32(slot.offset) + t2;
    assert t4 + [] == t4;
    LoadStoreU32(slot.flags, []);
    LoadStoreU32(slot.capacity, t4);
    LoadStoreU32(slot.length, t3);
    LoadStoreU32(slot.offset, t2);
    LoadStoreU64(slot.id, t1);
    hide LoadU32, StoreU32, LoadU64, StoreU64;
    assert (StoreU64(slot.id) + t1)[8..] == t1 && t1[4..] == t2 && t2[4..] == t3 && t3[4..] == t4;
  }

  /** Where the fields of a page header stand. */
  lemma HeaderLayout(h: PageHeader)
    requires |h.reserved| == 12
    ensures var s := EncodeHeader(h);
            && LoadU32(s) == h.magic && LoadU32(s[4..]) == h.pageIndex && LoadU32(s[8..]) == h.slotCount
            && LoadU32(s[12..]) == h.freeStart && LoadU32(s[16..]) == h.freeEnd && s[20..] == h.reserved
  {
    hide EncodeHeader, LoadU32;
    DecodeEncodedHeader(h);
    var s := EncodeHeader(h);
    DropOfDrop(s, 4, 4);
    DropOfDrop(s, 8, 4);
    DropOfDrop(s, 12, 4);
    DropOfDrop(s, 16, 4);
  }

  /** Where the fields of a slot stand. */
  lemma SlotLayout(slot: Slot)
    ensures var s := EncodeSlot(slot);
            && LoadU64(s) == slot.id && LoadU32(s[8..]) == slot.offset && LoadU32(s[12..]) == slot.length
            && LoadU32(s[16..]) == slot.capacity && LoadU32(s[20..]) == slot.flags
  {
    hide EncodeSlot, LoadU32, LoadU64;
    DecodeEncodedSlot(slot);
    var s := EncodeSlot(slot);
    DropOfDrop(s, 8, 4);
    DropOfDrop(s, 12, 4);
    DropOfDrop(s, 16, 4);
  }

  // ----- Reading a page -----

  function HeaderOf(page: seq<byte>): (h: PageHeader)
    requires |page| == PAGE_SIZE
    ensures |h.reserved| == 12
  {
    DecodeHeader(ReadAt(page, 0, PAGE_HEADER_SIZE))
  }

  function SlotPosition(k: nat): nat { 32 + 24 * k }

  /** validate_page_header */
  predicate ValidHeader(h: PageHeader, index: nat) {
    && h.magic == PAGE_MAGIC && h.pageIndex == index
    && SlotPosition(h.slotCount) == h.freeStart <= h.freeEnd <= PAGE_SIZE
  }

  /** A page whose header is in order: its slot directory can be read. */
  predicate Readable(page: seq<byte>, index: nat) {
    |page| == PAGE_SIZE && ValidHeader(HeaderOf(page), index)
  }

  /** The checks on a page header, on the bytes. */
  lemma ReadableMeans(page: seq<byte>, index: nat)
    requires |page| == PAGE_SIZE
    ensures Readable(page, index) <==>
              && LoadU32(page) == PAGE_MAGIC && LoadU32(page[4..]) == index
              && LoadU32(page[12..]) == 32 + 24 * LoadU32(page[8..])
              && LoadU32(page[12..]) <= LoadU32(page[16..]) <= 0x1_0000
  {
    hide LoadU32;
    var s := ReadAt(page, 0, PAGE_HEADER_SIZE);
    DropOfDrop(s, 4, 4);
    DropOfDrop(s, 8, 4);
    DropOfDrop(s, 12, 4);
    assert s == page[0..32] == page[..32];
    LoadsOfCut(page, 32, 0);
    LoadsOfCut(page, 32, 4);
    LoadsOfCut(page, 32, 8);
    LoadsOfCut(page, 32, 12);
    LoadsOfCut(page, 32, 16);
    assert s[0..] == s && page[0..] == page;
  }

  /** A word inside the first bytes is a word of the whole. */
  lemma LoadsOfCut(s: seq<byte>, n: nat, at: nat)
    requires at + 4 <= n <= |s|
    ensures LoadU32(s[..n][at..]) == LoadU32(s[at..])
    ensures at + 8 <= n ==> LoadU64(s[..n][at..]) == LoadU64(s[at..])
  {
  }

  function SlotAt(page: seq<byte>, k: nat): Slot
    requires |page| == PAGE_SIZE && SlotPosition(k + 1) <= PAGE_SIZE
  {
    DecodeSlot(ReadAt(page, SlotPosition(k), SLOT_SIZE))
  }

  function Directory(page: seq<byte>, count: nat): (slots: seq<Slot>)
    requires |page| == PAGE_SIZE && SlotPosition(count) <= PAGE_SIZE
    ensures |slots| == count
    ensures forall k :: 0 <= k < count ==> slots[k] == SlotAt(page, k)
  {
    seq(count, k requires 0 <= k < count => SlotAt(page, k))
  }

  /** The slot directory. */
  function Slots(page: seq<byte>, index: nat): (slots: seq<Slot>)
    requires Readable(page, index)
    ensures |slots| == HeaderOf(page).slotCount
  {
    Directory(page, HeaderOf(page).slotCount)
  }

  predicate InPage(slot: Slot) { slot.offset + slot.length <= PAGE_SIZE }

  function Payload(page: seq<byte>, slot: Slot): seq<byte>
    requires |page| == PAGE_SIZE && InPage(slot)
  {
    ReadAt(page, slot.offset, slot.length)
  }

  // ----- The page invariant -----

  function ExtentEnd(slot: Slot): nat { slot.offset + slot.capacity }

  /** Slot extents, active and deleted, follow one another down from the page end without gaps. */
  predicate Tiled(slots: seq<Slot>, freeEnd: nat) {
    && (slots == [] ==> freeEnd == PAGE_SIZE)
    && (slots != [] ==> ExtentEnd(slots[0]) == PAGE_SIZE && freeEnd == slots[|slots| - 1].offset)
    && (forall j, k :: 0 <= j < |slots| && 0 <= k < |slots| && j + 1 == k ==> ExtentEnd(slots[k]) == slots[j].offset)
  }

  predicate SlotOk(slot: Slot) {
    slot.length <= slot.capacity && (slot.flags == SLOT_ACTIVE || slot.flags == SLOT_DELETED)
  }

  predicate PageOk(page: seq<byte>, index: nat) {
    && Readable(page, index)
    && Tiled(Slots(page, index), HeaderOf(page).freeEnd)
    && forall k :: 0 <= k < |Slots(page, index)| ==> SlotOk(Slots(page, index)[k])
  }

  /** Tiles do not overlap: a later slot lies wholly below an earlier one. */
  lemma {:induction false} TilesDisjoint(slots: seq<Slot>, freeEnd: nat, j: nat, k: nat)
    requires Tiled(slots, freeEnd) && j < k < |slots|
    ensures ExtentEnd(slots[k]) <= slots[j].offset
    decreases k - j
  {
    if j + 1 < k {
      TilesDisjoint(slots, freeEnd, j + 1, k);
      assert ExtentEnd(slots[j + 1]) == slots[j].offset;
    }
  }

  /** Tiles lie between the free space and the page end. */
  lemma TilesInBounds(slots: seq<Slot>, freeEnd: nat, k: nat)
    requires Tiled(slots, freeEnd) && k < |slots|
    ensures freeEnd <= slots[k].offset && ExtentEnd(slots[k]) <= PAGE_SIZE
  {
    assert ExtentEnd(slots[0]) == PAGE_SIZE;
    if k > 0 {
      TilesDisjoint(slots, freeEnd, 0, k);
    }
    if k < |slots| - 1 {
      TilesDisjoint(slots, freeEnd, k, |slots| - 1);
    }
  }

  // ----- The writes -----

  function EmptyHeader(index: u32): PageHeader {
    PageHeader(PAGE_MAGIC, index, 0, PAGE_HEADER_SIZE, PAGE_SIZE, seq(12, _ => 0))
  }

  predicate Fits(h: PageHeader, size: nat) { h.freeEnd as int - h.freeStart >= SLOT_SIZE + size }

  /** An object fits exactly when the directory with one more slot and the payload do not meet. */
  lemma FitsExactly(page: seq<byte>, index: nat, size: nat)
    requires Readable(page, index)
    ensures Fits(HeaderOf(page), size) <==>
              SlotPosition(|Slots(page, index)| + 1) <= LoadU32(page[16..]) as int - size
  {
    hide LoadU32;
    var s := ReadAt(page, 0, PAGE_HEADER_SIZE);
    DropOfDrop(s, 4, 4);
    DropOfDrop(s, 8, 4);
    DropOfDrop(s, 12, 4);
    assert s == page[..32];
    LoadsOfCut(page, 32, 16);
  }

  function NewSlot(page: seq<byte>, id: u64, data: seq<byte>): Slot
    requires |page| == PAGE_SIZE && |data| <= HeaderOf(page).freeEnd
  {
    Slot(id, HeaderOf(page).freeEnd - |data|, |data|, |data|, SLOT_ACTIVE)
  }

  /** A document placed in the free space: its payload, its slot, then the page header. */
  function Placed(page: seq<byte>, id: u64, data: seq<byte>): seq<byte>
    requires |page| == PAGE_SIZE
    requires var h := HeaderOf(page); ValidHeader(h, h.pageIndex) && Fits(h, |data|)
  {
    var h := HeaderOf(page);
    var slot := NewSlot(page, id, data);
    var h' := h.(slotCount := h.slotCount + 1, freeStart := h.freeStart + SLOT_SIZE, freeEnd := slot.offset);
    WriteAt(WriteAt(WriteAt(page, slot.offset, data), SlotPosition(h.slotCount), EncodeSlot(slot)), 0, EncodeHeader(h'))
  }

  /** An in-place update: the new payload, then the slot with its new length. */
  function Rewritten(page: seq<byte>, index: nat, k: nat, data: seq<byte>): seq<byte>
    requires Readable(page, index) && k < |Slots(page, index)|
    requires Slots(page, index)[k].offset + |data| <= PAGE_SIZE
  {
    var slot := Slots(page, index)[k];
    WriteAt(WriteAt(page, slot.offset, data), SlotPosition(k), EncodeSlot(slot.(length := |data|)))
  }

  function MarkedDeleted(page: seq<byte>, index: nat, k: nat): seq<byte>
    requires Readable(page, index) && k < |Slots(page, index)|
  {
    WriteAt(page, SlotPosition(k), EncodeSlot(Slots(page, index)[k].(flags := SLOT_DELETED)))
  }

  /** What a write to one slot leaves alone: the other slots, and their payloads. */
  predicate OthersKept(page: seq<byte>, page': seq<byte>, index: nat, k: nat)
    requires Readable(page, index) && Readable(page', index)
  {
    && |Slots(page, index)| <= |Slots(page', index)|
    && forall j :: 0 <= j < |Slots(page, index)| && j != k ==>
         && Slots(page', index)[j] == Slots(page, index)[j]
         && (InPage(Slots(page, index)[j]) ==>
             Payload(page', Slots(page, index)[j]) == Payload(page, Slots(page, index)[j]))
  }

  lemma EmptyPageOk(page: seq<byte>, index: u32)
    requires |page| == PAGE_SIZE && ReadAt(page, 0, PAGE_HEADER_SIZE) == EncodeHeader(EmptyHeader(index))
    ensures PageOk(page, index) && Slots(page, index) == [] && HeaderOf(page) == EmptyHeader(index)
  {
    hide EncodeHeader, DecodeHeader;
    DecodeEncodedHeader(EmptyHeader(index));
  }

  lemma PlacedHeader(page: seq<byte>, index: nat, id: u64, data: seq<byte>)
    requires PageOk(page, index) && Fits(HeaderOf(page), |data|)
    ensures var h, page' := HeaderOf(page), Placed(page, id, data);
            && |page'| == PAGE_SIZE
            && HeaderOf(page') ==
               h.(slotCount := h.slotCount + 1, freeStart := h.freeStart + SLOT_SIZE, freeEnd := h.freeEnd - |data|)
            && ReadAt(page', SlotPosition(h.slotCount), SLOT_SIZE) == EncodeSlot(NewSlot(page, id, data))
            && ReadAt(page', h.freeEnd - |data|, |data|) == data
  {
    hide EncodeHeader, DecodeHeader, EncodeSlot, Slots, ReadAt, WriteAt;
    var h := HeaderOf(page);
    var slot := NewSlot(page, id, data);
    var h' := h.(slotCount := h.slotCount + 1, freeStart := h.freeStart + SLOT_SIZE, freeEnd := slot.offset);
    DecodeEncodedHeader(h');
    var p1 := WriteAt(page, slot.offset, data);
    var p2 := WriteAt(p1, SlotPosition(h.slotCount), EncodeSlot(slot));
    ReadBackWrite(page, slot.offset, data);
    ReadOutsideWrite(p1, SlotPosition(h.slotCount), EncodeSlot(slot), slot.offset, |data|);
    ReadOutsideWrite(p2, 0, EncodeHeader(h'), slot.offset, |data|);
    ReadBackWrite(p1, SlotPosition(h.slotCount), EncodeSlot(slot));
    ReadOutsideWrite(p2, 0, EncodeHeader(h'), SlotPosition(h.slotCount), SLOT_SIZE);
    ReadBackWrite(p2, 0, EncodeHeader(h'));
  }

  /** What lies outside the three writes of a placement is untouched. */
  lemma PlacedOutside(page: seq<byte>, index: nat, id: u64, data: seq<byte>, at: nat, size: nat)
    requires PageOk(page, index) && Fits(HeaderOf(page), |data|)
    requires var h := HeaderOf(page);
             (PAGE_HEADER_SIZE <= at && at + size <= h.freeStart) || (h.freeEnd <= at && at + size <= PAGE_SIZE)
    ensures ReadAt(Placed(page, id, data), at, size) == ReadAt(page, at, size)
  {
    var h := HeaderOf(page);
    var slot := NewSlot(page, id, data);
    var h' := h.(slotCount := h.slotCount + 1, freeStart := h.freeStart + SLOT_SIZE, freeEnd := slot.offset);
    var p1 := WriteAt(page, slot.offset, data);
    var p2 := WriteAt(p1, SlotPosition(h.slotCount), EncodeSlot(slot));
    ReadOutsideWrite(page, slot.offset, data, at, size);
    ReadOutsideWrite(p1, SlotPosition(h.slotCount), EncodeSlot(slot), at, size);
    ReadOutsideWrite(p2, 0, EncodeHeader(h'), at, size);
  }

  /** Placing a document adds one slot holding it and keeps the page in order. */
  lemma PlacedOk(page: seq<byte>, index: nat, id: u64, data: seq<byte>)
    requires PageOk(page, index) && Fits(HeaderOf(page), |data|)
    ensures var page', n := Placed(page, id, data), |Slots(page, index)|;
            && PageOk(page', index) && |Slots(page', index)| == n + 1
            && OthersKept(page, page', index, n)
            && Slots(page', index)[n] == NewSlot(page, id, data) && Payload(page', Slots(page', index)[n]) == data
  {
    hide EncodeHeader, DecodeHeader, EncodeSlot, DecodeSlot, Placed;
    var page' := Placed(page, id, data);
    var slots, n := Slots(page, index), |Slots(page, index)|;
    PlacedHeader(page, index, id, data);
    DecodeEncodedSlot(NewSlot(page, id, data));
    var slots' := Slots(page', index);
    forall j | 0 <= j < n
      ensures slots'[j] == slots[j] && InPage(slots[j]) && Payload(page', slots[j]) == Payload(page, slots[j])
    {
      PlacedOutside(page, index, id, data, SlotPosition(j), SLOT_SIZE);
      TilesInBounds(slots, HeaderOf(page).freeEnd, j);
      PlacedOutside(page, index, id, data, slots[j].offset, slots[j].length);
    }
    assert slots' == slots + [NewSlot(page, id, data)];
    assert Tiled(slots', HeaderOf(page').freeEnd);
    assert forall j :: 0 <= j < |slots'| ==> SlotOk(slots'[j]);
  }

  lemma SlotWriteKeeps(page: seq<byte>, index: nat, k: nat, slot: Slot)
    requires PageOk(page, index) && k < |Slots(page, index)|
    requires var was := Slots(page, index)[k];
             SlotOk(slot) && slot.offset == was.offset && slot.capacity == was.capacity
    ensures var page' := WriteAt(page, SlotPosition(k), EncodeSlot(slot));
            && PageOk(page', index) && Slots(page', index) == Slots(page, index)[k := slot]
            && HeaderOf(page') == HeaderOf(page)
            && forall at: nat, size: nat :: HeaderOf(page).freeEnd <= at && at + size <= PAGE_SIZE ==>
                 ReadAt(page', at, size) == ReadAt(page, at, size)
  {
    hide EncodeHeader, DecodeHeader, EncodeSlot, DecodeSlot;
    var s, slots := EncodeSlot(slot), Slots(page, index);
    var page' := WriteAt(page, SlotPosition(k), s);
    ReadOutsideWrite(page, SlotPosition(k), s, 0, PAGE_HEADER_SIZE);
    DecodeEncodedSlot(slot);
    ReadBackWrite(page, SlotPosition(k), s);
    forall j | 0 <= j < |slots| && j != k ensures SlotAt(page', j) == SlotAt(page, j) {
      ReadOutsideWrite(page, SlotPosition(k), s, SlotPosition(j), SLOT_SIZE);
    }
    var slots' := Slots(page', index);
    assert slots' == slots[k := slot];
    assert Tiled(slots', HeaderOf(page').freeEnd);
    assert forall j :: 0 <= j < |slots'| ==> SlotOk(slots'[j]);
    forall at: nat, size: nat | HeaderOf(page).freeEnd <= at && at + size <= PAGE_SIZE
      ensures ReadAt(page', at, size) == ReadAt(page, at, size)
    {
      ReadOutsideWrite(page, SlotPosition(k), s, at, size);
    }
  }

  /** Marking a slot deleted changes nothing else. */
  lemma MarkedDeletedOk(page: seq<byte>, index: nat, k: nat)
    requires PageOk(page, index) && k < |Slots(page, index)|
    ensures var page' := MarkedDeleted(page, index, k);
            && PageOk(page', index) && |Slots(page', index)| == |Slots(page, index)|
            && OthersKept(page, page', index, k)
            && Slots(page', index)[k] == Slots(page, index)[k].(flags := SLOT_DELETED)
  {
    hide EncodeHeader, DecodeHeader, EncodeSlot, DecodeSlot;
    var slots := Slots(page, index);
    SlotWriteKeeps(page, index, k, slots[k].(flags := SLOT_DELETED));
    forall j | 0 <= j < |slots| ensures HeaderOf(page).freeEnd <= slots[j].offset && ExtentEnd(slots[j]) <= PAGE_SIZE {
      TilesInBounds(slots, HeaderOf(page).freeEnd, j);
    }
  }

  /** An update in place changes one payload and its length, and no other document. */
  lemma RewrittenOk(page: seq<byte>, index: nat, k: nat, data: seq<byte>)
    requires PageOk(page, index) && k < |Slots(page, index)|
    requires |data| <= Slots(page, index)[k].capacity
    ensures Slots(page, index)[k].offset + |data| <= PAGE_SIZE
    ensures var page' := Rewritten(page, index, k, data);
            && PageOk(page', index) && |Slots(page', index)| == |Slots(page, index)|
            && OthersKept(page, page', index, k)
            && Slots(page', index)[k] == Slots(page, index)[k].(length := |data|)
            && Payload(page', Slots(page', index)[k]) == data
  {
    hide EncodeHeader, DecodeHeader, EncodeSlot, DecodeSlot;
    var slots, freeEnd := Slots(page, index), HeaderOf(page).freeEnd;
    var slot := slots[k];
    TilesInBounds(slots, freeEnd, k);
    var middle := WriteAt(page, slot.offset, data);
    ReadBackWrite(page, slot.offset, data);
    ReadOutsideWrite(page, slot.offset, data, 0, PAGE_HEADER_SIZE);
    forall j | 0 <= j < |slots| ensures SlotAt(middle, j) == SlotAt(page, j) {
      ReadOutsideWrite(page, slot.offset, data, SlotPosition(j), SLOT_SIZE);
    }
    assert Slots(middle, index) == slots;
    forall j | 0 <= j < |slots| && j != k
      ensures InPage(slots[j]) && freeEnd <= slots[j].offset && Payload(middle, slots[j]) == Payload(page, slots[j])
    {
      TilesInBounds(slots, freeEnd, j);
      if j < k {
        TilesDisjoint(slots, freeEnd, j, k);
      } else {
        TilesDisjoint(slots, freeEnd, k, j);
      }
      ReadOutsideWrite(page, slot.offset, data, slots[j].offset, slots[j].length);
    }
    SlotWriteKeeps(middle, index, k, slot.(length := |data|));
  }
}
