/**
 * An object file as a list of pages and an index of live objects: what it means for the two to
 * agree, and that every kind of page update keeps them in agreement.
 */
module ObjectImage {
  import opened Bytes
  import opened PageLayout
  import BsonFormat

  datatype Location = Location(pageIndex: nat, slotIndex: nat, alive: bool)

  predicate Has(pages: seq<seq<byte>>, p: nat, k: nat) {
    p < |pages| && Readable(pages[p], p) && k < |Slots(pages[p], p)|
  }

  function SlotIn(pages: seq<seq<byte>>, p: nat, k: nat): Slot
    requires Has(pages, p, k)
  {
    Slots(pages[p], p)[k]
  }

  predicate Active(pages: seq<seq<byte>>, p: nat, k: nat) {
    Has(pages, p, k) && SlotIn(pages, p, k).flags == SLOT_ACTIVE
  }

  function DocumentIn(pages: seq<seq<byte>>, p: nat, k: nat): seq<byte>
    requires Has(pages, p, k) && InPage(SlotIn(pages, p, k))
  {
    Payload(pages[p], SlotIn(pages, p, k))
  }

  ghost predicate PagesOk(pages: seq<seq<byte>>) {
    forall p :: 0 <= p < |pages| ==> PageOk(pages[p], p)
  }

  ghost function LiveIds(locations: seq<Location>): set<nat> {
    set id: nat | id < |locations| && locations[id].alive
  }

  /** The slots are sane: ids handed out before, payloads in the page, live documents valid. */
  ghost predicate SlotsSane(pages: seq<seq<byte>>, nextId: nat) {
    forall p: nat, k: nat {:trigger Has(pages, p, k)} :: Has(pages, p, k) ==>
      && SlotIn(pages, p, k).id < nextId
      && InPage(SlotIn(pages, p, k))
      && (Active(pages, p, k) ==> BsonFormat.ValidDocument(DocumentIn(pages, p, k)))
  }

  /** Every live id has exactly one active slot, the one its location names; dead ids have none. */
  ghost predicate Indexed(pages: seq<seq<byte>>, locations: seq<Location>) {
    && (forall p: nat, k: nat {:trigger Active(pages, p, k)} :: Active(pages, p, k) ==>
          SlotIn(pages, p, k).id < |locations| && locations[SlotIn(pages, p, k).id] == Location(p, k, true))
    && (forall id: nat {:trigger locations[id]} :: id < |locations| && locations[id].alive ==>
          && Active(pages, locations[id].pageIndex, locations[id].slotIndex)
          && SlotIn(pages, locations[id].pageIndex, locations[id].slotIndex).id == id)
  }

  ghost predicate Sound(pages: seq<seq<byte>>, nextId: nat, liveCount: nat, locations: seq<Location>) {
    && PagesOk(pages)
    && SlotsSane(pages, nextId)
    && nextId <= |locations|
    && Indexed(pages, locations)
    && liveCount == |LiveIds(locations)|
  }

  /** The document of every live object. */
  ghost function Objects(pages: seq<seq<byte>>, nextId: nat, locations: seq<Location>): (m: map<nat, seq<byte>>)
    requires SlotsSane(pages, nextId) && Indexed(pages, locations)
    ensures m.Keys == LiveIds(locations)
  {
    map id | id in LiveIds(locations) :: DocumentIn(pages, locations[id].pageIndex, locations[id].slotIndex)
  }

  /** Every live document is valid. */
  lemma ObjectsValid(pages: seq<seq<byte>>, nextId: nat, liveCount: nat, locations: seq<Location>)
    requires Sound(pages, nextId, liveCount, locations)
    ensures forall id :: id in Objects(pages, nextId, locations) ==>
              BsonFormat.ValidDocument(Objects(pages, nextId, locations)[id])
  {
    hide BsonFormat.ValidDocument, Readable, Slots, Payload, PagesOk;
    forall id: nat | id in LiveIds(locations)
      ensures BsonFormat.ValidDocument(DocumentIn(pages, locations[id].pageIndex, locations[id].slotIndex))
    {
      assert Has(pages, locations[id].pageIndex, locations[id].slotIndex);
    }
  }

  lemma LiveIdsAreOld(pages: seq<seq<byte>>, nextId: nat, liveCount: nat, locations: seq<Location>)
    requires Sound(pages, nextId, liveCount, locations)
    ensures forall id: nat :: id in LiveIds(locations) ==> id < nextId
  {
    forall id | id in LiveIds(locations) ensures id < nextId {
      assert Has(pages, locations[id].pageIndex, locations[id].slotIndex);
    }
  }

  lemma {:induction false} SizeBelow(ids: set<nat>, n: nat)
    requires forall id :: id in ids ==> id < n
    ensures |ids| <= n
  {
    if n > 0 {
      SizeBelow(ids - {n - 1}, n - 1);
    }
  }

  lemma PageReadable(pages: seq<seq<byte>>, p: nat)
    requires PagesOk(pages) && p < |pages|
    ensures Readable(pages[p], p)
  {
    assert PageOk(pages[p], p);
  }

  // ----- Page updates at the file level -----

  /** All slots but (p, k) are as before, with their payloads; (p, k) may be new. */
  ghost predicate SameElsewhere(pages: seq<seq<byte>>, pages': seq<seq<byte>>, p: nat, k: nat) {
    && (forall q: nat, j: nat {:trigger Has(pages', q, j)} :: Has(pages', q, j) && !(q == p && j == k) ==>
          Has(pages, q, j))
    && (forall q: nat, j: nat {:trigger Has(pages, q, j)} :: Has(pages, q, j) ==> Has(pages', q, j))
    && (forall q: nat, j: nat {:trigger SlotIn(pages', q, j)}{:trigger SlotIn(pages, q, j)} ::
          Has(pages, q, j) && Has(pages', q, j) && !(q == p && j == k) ==>
            && SlotIn(pages', q, j) == SlotIn(pages, q, j)
            && (InPage(SlotIn(pages, q, j)) ==> DocumentIn(pages', q, j) == DocumentIn(pages, q, j)))
  }

  lemma PageUpdateLocal(pages: seq<seq<byte>>, p: nat, k: nat, page: seq<byte>)
    requires PagesOk(pages) && p < |pages| && PageOk(page, p)
    requires OthersKept(pages[p], page, p, k)
    requires |Slots(page, p)| == |Slots(pages[p], p)| || (k == |Slots(pages[p], p)| && |Slots(page, p)| == k + 1)
    ensures PagesOk(pages[p := page]) && SameElsewhere(pages, pages[p := page], p, k)
  {
    hide Slots, ValidHeader, HeaderOf, Payload, Tiled, SlotOk;
    var pages' := pages[p := page];
    forall q: nat, j: nat | Has(pages, q, j) && Has(pages', q, j) && !(q == p && j == k)
      ensures SlotIn(pages', q, j) == SlotIn(pages, q, j)
      ensures InPage(SlotIn(pages, q, j)) ==> DocumentIn(pages', q, j) == DocumentIn(pages, q, j)
    {
      if q == p {
        assert Slots(page, p)[j] == Slots(pages[p], p)[j];
      }
    }
  }

  /** Slot (p, k) of `pages'` is a new active slot holding `doc` under `id`. */
  ghost predicate NewActive(pages: seq<seq<byte>>, pages': seq<seq<byte>>, p: nat, k: nat, id: nat, doc: seq<byte>) {
    && SameElsewhere(pages, pages', p, k)
    && !Has(pages, p, k) && Active(pages', p, k)
    && SlotIn(pages', p, k).id == id && InPage(SlotIn(pages', p, k)) && DocumentIn(pages', p, k) == doc
    && BsonFormat.ValidDocument(doc)
  }

  lemma SaneAfterNew(pages: seq<seq<byte>>, pages': seq<seq<byte>>, p: nat, k: nat, id: nat, doc: seq<byte>,
                     nextId: nat, nextId': nat)
    requires NewActive(pages, pages', p, k, id, doc)
    requires SlotsSane(pages, nextId) && nextId <= nextId' && id < nextId'
    ensures SlotsSane(pages', nextId')
  {
    hide BsonFormat.ValidDocument, Readable, Slots, Payload;
    forall q: nat, j: nat | Has(pages', q, j)
      ensures SlotIn(pages', q, j).id < nextId' && InPage(SlotIn(pages', q, j))
      ensures Active(pages', q, j) ==> BsonFormat.ValidDocument(DocumentIn(pages', q, j))
    {
      if !(q == p && j == k) {
        assert Has(pages, q, j) && SlotIn(pages', q, j) == SlotIn(pages, q, j);
        assert Active(pages', q, j) ==> Active(pages, q, j);
      }
    }
  }

  lemma IndexedAfterNew(pages: seq<seq<byte>>, pages': seq<seq<byte>>, p: nat, k: nat, id: nat, doc: seq<byte>,
                        locations: seq<Location>)
    requires NewActive(pages, pages', p, k, id, doc)
    requires Indexed(pages, locations) && id < |locations| && !locations[id].alive
    ensures Indexed(pages', locations[id := Location(p, k, true)])
  {
    hide BsonFormat.ValidDocument, Readable, Slots, Payload;
    var locations' := locations[id := Location(p, k, true)];
    forall q: nat, j: nat | Active(pages', q, j)
      ensures SlotIn(pages', q, j).id < |locations'| && locations'[SlotIn(pages', q, j).id] == Location(q, j, true)
    {
      if !(q == p && j == k) {
        assert Has(pages, q, j) && SlotIn(pages', q, j) == SlotIn(pages, q, j);
        assert Active(pages, q, j);
      }
    }
    forall x: nat | x < |locations'| && locations'[x].alive
      ensures Active(pages', locations'[x].pageIndex, locations'[x].slotIndex)
      ensures SlotIn(pages', locations'[x].pageIndex, locations'[x].slotIndex).id == x
    {
      if x != id {
        var q, j := locations[x].pageIndex, locations[x].slotIndex;
        assert Active(pages, q, j) && Has(pages', q, j);
        assert SlotIn(pages', q, j) == SlotIn(pages, q, j);
      }
    }
  }

  /** The documents of the other live objects do not change when slot (p, k) does. */
  lemma OthersUnchanged(pages: seq<seq<byte>>, pages': seq<seq<byte>>, p: nat, k: nat, nextId: nat,
                        locations: seq<Location>, x: nat)
    requires SameElsewhere(pages, pages', p, k) && SlotsSane(pages, nextId) && Indexed(pages, locations)
    requires x < |locations| && locations[x].alive && !(locations[x].pageIndex == p && locations[x].slotIndex == k)
    ensures var q, j := locations[x].pageIndex, locations[x].slotIndex;
            && Has(pages, q, j) && Has(pages', q, j) && InPage(SlotIn(pages, q, j)) && InPage(SlotIn(pages', q, j))
            && DocumentIn(pages', q, j) == DocumentIn(pages, q, j)
  {
    hide BsonFormat.ValidDocument, Readable, Slots, Payload;
    assert Active(pages, locations[x].pageIndex, locations[x].slotIndex);
  }

  /** The effect of placing a document in a page with room for it. */
  lemma PlaceInPages(pages: seq<seq<byte>>, p: nat, id: u64, doc: seq<byte>)
    requires PagesOk(pages) && p < |pages| && Fits(HeaderOf(pages[p]), |doc|) && BsonFormat.ValidDocument(doc)
    ensures var pages', k := pages[p := Placed(pages[p], id, doc)], |Slots(pages[p], p)|;
            PagesOk(pages') && NewActive(pages, pages', p, k, id, doc)
  {
    hide BsonFormat.ValidDocument, Slots, Payload, HeaderOf, Placed, Tiled;
    PlacedOk(pages[p], p, id, doc);
    PageUpdateLocal(pages, p, |Slots(pages[p], p)|, Placed(pages[p], id, doc));
  }

  lemma ObjectsAfterNew(pages: seq<seq<byte>>, pages': seq<seq<byte>>, p: nat, k: nat, id: nat, doc: seq<byte>,
                        nextId: nat, nextId': nat, locations: seq<Location>)
    requires NewActive(pages, pages', p, k, id, doc)
    requires SlotsSane(pages, nextId) && Indexed(pages, locations)
    requires id < |locations|
    requires var locations' := locations[id := Location(p, k, true)];
             SlotsSane(pages', nextId') && Indexed(pages', locations')
    ensures var locations' := locations[id := Location(p, k, true)];
            Objects(pages', nextId', locations') == Objects(pages, nextId, locations)[id := doc]
  {
    hide BsonFormat.ValidDocument, Readable, Slots, Payload, SlotsSane, Indexed, Active, SameElsewhere;
    var locations' := locations[id := Location(p, k, true)];
    assert LiveIds(locations') == LiveIds(locations) + {id};
    forall x | x in LiveIds(locations) && x != id
      ensures Objects(pages', nextId', locations')[x] == Objects(pages, nextId, locations)[x]
    {
      ElsewhereThanNew(pages, p, k, locations, x);
      OthersUnchanged(pages, pages', p, k, nextId, locations, x);
    }
    MapExtended(Objects(pages, nextId, locations), Objects(pages', nextId', locations'), id, doc);
  }

  lemma MapExtended(m: map<nat, seq<byte>>, m': map<nat, seq<byte>>, id: nat, doc: seq<byte>)
    requires m'.Keys == m.Keys + {id} && m'[id] == doc
    requires forall x :: x in m.Keys && x != id ==> m'[x] == m[x]
    ensures m' == m[id := doc]
  {
  }

  /** No live object is in a slot that is not there. */
  lemma ElsewhereThanNew(pages: seq<seq<byte>>, p: nat, k: nat, locations: seq<Location>, x: nat)
    requires Indexed(pages, locations) && !Has(pages, p, k) && x < |locations| && locations[x].alive
    ensures !(locations[x].pageIndex == p && locations[x].slotIndex == k)
  {
    hide BsonFormat.ValidDocument, Readable, Slots, Payload;
    assert Active(pages, locations[x].pageIndex, locations[x].slotIndex);
  }

  /** A new object in a free slot. */
  lemma InsertSound(pages: seq<seq<byte>>, nextId: u64, liveCount: nat, locations: seq<Location>, p: nat,
                    doc: seq<byte>)
    requires Sound(pages, nextId, liveCount, locations) && nextId < |locations|
    requires p < |pages| && Fits(HeaderOf(pages[p]), |doc|) && BsonFormat.ValidDocument(doc)
    ensures var pages' := pages[p := Placed(pages[p], nextId, doc)];
            var locations' := locations[nextId := Location(p, |Slots(pages[p], p)|, true)];
            && Sound(pages', nextId + 1, liveCount + 1, locations')
            && nextId !in LiveIds(locations)
            && Objects(pages', nextId + 1, locations') == Objects(pages, nextId, locations)[nextId := doc]
  {
    hide BsonFormat.ValidDocument, Slots, Payload, HeaderOf, Placed, PageOk, SlotsSane, Indexed, NewActive, Objects;
    PageReadable(pages, p);
    var k := |Slots(pages[p], p)|;
    var pages' := pages[p := Placed(pages[p], nextId, doc)];
    PlaceInPages(pages, p, nextId, doc);
    LiveIdsAreOld(pages, nextId, liveCount, locations);
    assert LiveIds(locations[nextId := Location(p, k, true)]) == LiveIds(locations) + {nextId};
    SaneAfterNew(pages, pages', p, k, nextId, doc, nextId, nextId + 1);
    IndexedAfterNew(pages, pages', p, k, nextId, doc, locations);
    ObjectsAfterNew(pages, pages', p, k, nextId, doc, nextId, nextId + 1, locations);
  }

  // ----- In-place updates and deletions -----

  /** Slot (p, k) of `pages'` still belongs to the same object, and holds `doc`. */
  ghost predicate SameActive(pages: seq<seq<byte>>, pages': seq<seq<byte>>, p: nat, k: nat, doc: seq<byte>) {
    && SameElsewhere(pages, pages', p, k)
    && Active(pages, p, k) && Active(pages', p, k)
    && SlotIn(pages', p, k).id == SlotIn(pages, p, k).id && InPage(SlotIn(pages', p, k))
    && DocumentIn(pages', p, k) == doc && BsonFormat.ValidDocument(doc)
  }

  lemma RewriteInPages(pages: seq<seq<byte>>, p: nat, k: nat, doc: seq<byte>)
    requires PagesOk(pages) && Active(pages, p, k) && BsonFormat.ValidDocument(doc)
    requires |doc| <= SlotIn(pages, p, k).capacity
    ensures SlotIn(pages, p, k).offset + |doc| <= PAGE_SIZE
    ensures var pages' := pages[p := Rewritten(pages[p], p, k, doc)];
            PagesOk(pages') && SameActive(pages, pages', p, k, doc)
  {
    hide BsonFormat.ValidDocument, Slots, Payload, HeaderOf, Rewritten, Tiled;
    RewrittenOk(pages[p], p, k, doc);
    PageUpdateLocal(pages, p, k, Rewritten(pages[p], p, k, doc));
  }

  lemma RewriteSound(pages: seq<seq<byte>>, nextId: u64, liveCount: nat, locations: seq<Location>, id: nat,
                     doc: seq<byte>)
    requires Sound(pages, nextId, liveCount, locations) && id < |locations| && locations[id].alive
    requires Active(pages, locations[id].pageIndex, locations[id].slotIndex)
    requires |doc| <= SlotIn(pages, locations[id].pageIndex, locations[id].slotIndex).capacity
    requires BsonFormat.ValidDocument(doc)
    ensures var p, k := locations[id].pageIndex, locations[id].slotIndex;
            SlotIn(pages, p, k).offset + |doc| <= PAGE_SIZE
    ensures var p, k := locations[id].pageIndex, locations[id].slotIndex;
            var pages' := pages[p := Rewritten(pages[p], p, k, doc)];
            && Sound(pages', nextId, liveCount, locations)
            && Objects(pages', nextId, locations) == Objects(pages, nextId, locations)[id := doc]
  {
    hide BsonFormat.ValidDocument, Slots, Payload, HeaderOf, Rewritten, PageOk, SameElsewhere, Readable;
    var p, k := locations[id].pageIndex, locations[id].slotIndex;
    RewriteInPages(pages, p, k, doc);
    SoundAfterSame(pages, pages[p := Rewritten(pages[p], p, k, doc)], nextId, locations, id, doc);
  }

  lemma SoundAfterSame(pages: seq<seq<byte>>, pages': seq<seq<byte>>, nextId: nat, locations: seq<Location>, id: nat,
                       doc: seq<byte>)
    requires SlotsSane(pages, nextId) && Indexed(pages, locations) && id < |locations| && locations[id].alive
    requires SameActive(pages, pages', locations[id].pageIndex, locations[id].slotIndex, doc)
    ensures SlotsSane(pages', nextId) && Indexed(pages', locations)
    ensures Objects(pages', nextId, locations) == Objects(pages, nextId, locations)[id := doc]
  {
    hide BsonFormat.ValidDocument, Readable, Slots, Payload, SlotsSane, Indexed, SameElsewhere, Active;
    var p, k := locations[id].pageIndex, locations[id].slotIndex;
    SaneAfterSame(pages, pages', p, k, nextId, doc);
    IndexedAfterSame(pages, pages', p, k, doc, locations);
    forall x | x in LiveIds(locations)
      ensures Objects(pages', nextId, locations)[x] == if x == id then doc else Objects(pages, nextId, locations)[x]
    {
      if x != id {
        DistinctSlots(pages, locations, id, x);
        OthersUnchanged(pages, pages', p, k, nextId, locations, x);
      }
    }
    MapExtended(Objects(pages, nextId, locations), Objects(pages', nextId, locations), id, doc);
  }

  /** Different live ids are in different slots. */
  lemma DistinctSlots(pages: seq<seq<byte>>, locations: seq<Location>, id: nat, x: nat)
    requires Indexed(pages, locations) && id < |locations| && x < |locations| && id != x
    requires locations[id].alive && locations[x].alive
    ensures !(locations[x].pageIndex == locations[id].pageIndex && locations[x].slotIndex == locations[id].slotIndex)
  {
    hide Readable, Slots;
    assert Active(pages, locations[id].pageIndex, locations[id].slotIndex);
    assert Active(pages, locations[x].pageIndex, locations[x].slotIndex);
  }

  lemma SaneAfterSame(pages: seq<seq<byte>>, pages': seq<seq<byte>>, p: nat, k: nat, nextId: nat, doc: seq<byte>)
    requires SlotsSane(pages, nextId) && SameActive(pages, pages', p, k, doc)
    ensures SlotsSane(pages', nextId)
  {
    hide BsonFormat.ValidDocument, Readable, Slots, Payload;
    forall q: nat, j: nat | Has(pages', q, j)
      ensures SlotIn(pages', q, j).id < nextId && InPage(SlotIn(pages', q, j))
      ensures Active(pages', q, j) ==> BsonFormat.ValidDocument(DocumentIn(pages', q, j))
    {
      assert Has(pages, p, k);
      if !(q == p && j == k) {
        assert Has(pages, q, j) && SlotIn(pages', q, j) == SlotIn(pages, q, j);
        assert Active(pages', q, j) ==> Active(pages, q, j);
      }
    }
  }

  lemma IndexedAfterSame(pages: seq<seq<byte>>, pages': seq<seq<byte>>, p: nat, k: nat, doc: seq<byte>,
                         locations: seq<Location>)
    requires Indexed(pages, locations) && SameActive(pages, pages', p, k, doc)
    ensures Indexed(pages', locations)
  {
    hide BsonFormat.ValidDocument, Readable, Slots, Payload;
    forall q: nat, j: nat | Active(pages', q, j)
      ensures SlotIn(pages', q, j).id < |locations| && locations[SlotIn(pages', q, j).id] == Location(q, j, true)
    {
      if !(q == p && j == k) {
        assert Has(pages, q, j) && SlotIn(pages', q, j) == SlotIn(pages, q, j);
      }
      assert Active(pages, q, j);
    }
    forall x: nat | x < |locations| && locations[x].alive
      ensures Active(pages', locations[x].pageIndex, locations[x].slotIndex)
      ensures SlotIn(pages', locations[x].pageIndex, locations[x].slotIndex).id == x
    {
      var q, j := locations[x].pageIndex, locations[x].slotIndex;
      assert Active(pages, q, j) && Has(pages', q, j);
      assert (q == p && j == k) || SlotIn(pages', q, j) == SlotIn(pages, q, j);
    }
  }

  /** Slot (p, k), active before, is marked deleted. */
  ghost predicate Retired(pages: seq<seq<byte>>, pages': seq<seq<byte>>, p: nat, k: nat) {
    && SameElsewhere(pages, pages', p, k)
    && Active(pages, p, k) && Has(pages', p, k) && !Active(pages', p, k)
    && SlotIn(pages', p, k).id == SlotIn(pages, p, k).id
    && (InPage(SlotIn(pages, p, k)) ==> InPage(SlotIn(pages', p, k)))
  }

  lemma RetireInPages(pages: seq<seq<byte>>, p: nat, k: nat)
    requires PagesOk(pages) && Active(pages, p, k)
    ensures var pages' := pages[p := MarkedDeleted(pages[p], p, k)];
            PagesOk(pages') && Retired(pages, pages', p, k)
  {
    hide Slots, Payload, HeaderOf, MarkedDeleted, Tiled;
    MarkedDeletedOk(pages[p], p, k);
    PageUpdateLocal(pages, p, k, MarkedDeleted(pages[p], p, k));
  }

  lemma SaneAfterRetire(pages: seq<seq<byte>>, pages': seq<seq<byte>>, p: nat, k: nat, nextId: nat)
    requires SlotsSane(pages, nextId) && Retired(pages, pages', p, k)
    ensures SlotsSane(pages', nextId)
  {
    hide BsonFormat.ValidDocument, Readable, Slots, Payload;
    forall q: nat, j: nat | Has(pages', q, j)
      ensures SlotIn(pages', q, j).id < nextId && InPage(SlotIn(pages', q, j))
      ensures Active(pages', q, j) ==> BsonFormat.ValidDocument(DocumentIn(pages', q, j))
    {
      assert Has(pages, p, k);
      if !(q == p && j == k) {
        assert Has(pages, q, j) && SlotIn(pages', q, j) == SlotIn(pages, q, j);
        assert Active(pages', q, j) ==> Active(pages, q, j);
      }
    }
  }

  /** A deletion: the slot is marked and the id is dead. */
  lemma DeleteSound(pages: seq<seq<byte>>, nextId: u64, liveCount: nat, locations: seq<Location>, id: nat)
    requires Sound(pages, nextId, liveCount, locations) && id < |locations| && locations[id].alive
    requires Active(pages, locations[id].pageIndex, locations[id].slotIndex)
    ensures var p, k := locations[id].pageIndex, locations[id].slotIndex;
            var pages' := pages[p := MarkedDeleted(pages[p], p, k)];
            var locations' := locations[id := locations[id].(alive := false)];
            && liveCount > 0 && Sound(pages', nextId, liveCount - 1, locations')
            && Objects(pages', nextId, locations') == Objects(pages, nextId, locations) - {id}
  {
    hide BsonFormat.ValidDocument, Slots, Payload, HeaderOf, MarkedDeleted, PageOk, Readable;
    var p, k := locations[id].pageIndex, locations[id].slotIndex;
    RetireInPages(pages, p, k);
    var pages' := pages[p := MarkedDeleted(pages[p], p, k)];
    var locations' := locations[id := locations[id].(alive := false)];
    SaneAfterRetire(pages, pages', p, k, nextId);
    IndexedAfterDelete(pages, pages', locations, id, nextId);
    ObjectsAfterDelete(pages, pages', locations, id, nextId);
    assert LiveIds(locations') == LiveIds(locations) - {id};
    assert id in LiveIds(locations);
  }

  lemma IndexedAfterDelete(pages: seq<seq<byte>>, pages': seq<seq<byte>>, locations: seq<Location>, id: nat,
                           nextId: nat)
    requires SlotsSane(pages, nextId) && Indexed(pages, locations) && id < |locations| && locations[id].alive
    requires Retired(pages, pages', locations[id].pageIndex, locations[id].slotIndex)
    ensures Indexed(pages', locations[id := locations[id].(alive := false)])
  {
    hide BsonFormat.ValidDocument, Readable, Slots, Payload, InPage;
    var locations' := locations[id := locations[id].(alive := false)];
    assert Active(pages, locations[id].pageIndex, locations[id].slotIndex);
    forall q: nat, j: nat | Active(pages', q, j)
      ensures SlotIn(pages', q, j).id < |locations'| && locations'[SlotIn(pages', q, j).id] == Location(q, j, true)
    {
      assert Has(pages, q, j) && SlotIn(pages', q, j) == SlotIn(pages, q, j);
      assert Active(pages, q, j);
    }
    forall x: nat | x < |locations'| && locations'[x].alive
      ensures Active(pages', locations'[x].pageIndex, locations'[x].slotIndex)
      ensures SlotIn(pages', locations'[x].pageIndex, locations'[x].slotIndex).id == x
    {
      var q, j := locations[x].pageIndex, locations[x].slotIndex;
      assert Active(pages, q, j) && Has(pages', q, j) && SlotIn(pages', q, j) == SlotIn(pages, q, j);
    }
  }

  lemma ObjectsAfterDelete(pages: seq<seq<byte>>, pages': seq<seq<byte>>, locations: seq<Location>, id: nat,
                           nextId: nat)
    requires SlotsSane(pages, nextId) && Indexed(pages, locations) && id < |locations| && locations[id].alive
    requires Retired(pages, pages', locations[id].pageIndex, locations[id].slotIndex)
    requires SlotsSane(pages', nextId) && Indexed(pages', locations[id := locations[id].(alive := false)])
    ensures Objects(pages', nextId, locations[id := locations[id].(alive := false)]) ==
              Objects(pages, nextId, locations) - {id}
  {
    hide BsonFormat.ValidDocument, Readable, Slots, Payload, SlotsSane, Indexed, SameElsewhere, Active;
    var locations' := locations[id := locations[id].(alive := false)];
    var p, k := locations[id].pageIndex, locations[id].slotIndex;
    assert LiveIds(locations') == LiveIds(locations) - {id};
    forall x | x in LiveIds(locations')
      ensures Objects(pages', nextId, locations')[x] == Objects(pages, nextId, locations)[x]
    {
      DistinctSlots(pages, locations, id, x);
      OthersUnchanged(pages, pages', p, k, nextId, locations, x);
    }
  }

  /** An update that moves: the new slot is placed first, then the old one is marked deleted. */
  lemma RelocateSound(pages: seq<seq<byte>>, nextId: u64, liveCount: nat, locations: seq<Location>, id: u64,
                      doc: seq<byte>, p: nat)
    requires Sound(pages, nextId, liveCount, locations) && id < |locations| && locations[id].alive
    requires p < |pages| && Fits(HeaderOf(pages[p]), |doc|) && BsonFormat.ValidDocument(doc)
    ensures var q, j := locations[id].pageIndex, locations[id].slotIndex;
            var placed := pages[p := Placed(pages[p], id, doc)];
            Active(placed, q, j)
    ensures var q, j := locations[id].pageIndex, locations[id].slotIndex;
            var placed := pages[p := Placed(pages[p], id, doc)];
            var pages' := placed[q := MarkedDeleted(placed[q], q, j)];
            var locations' := locations[id := Location(p, |Slots(pages[p], p)|, true)];
            && Sound(pages', nextId, liveCount, locations')
            && Objects(pages', nextId, locations') == Objects(pages, nextId, locations)[id := doc]
  {
    hide BsonFormat.ValidDocument, Slots, Payload, HeaderOf, MarkedDeleted, Placed, PageOk, Tiled, InPage;
    PageReadable(pages, p);
    var k := |Slots(pages[p], p)|;
    var q, j := locations[id].pageIndex, locations[id].slotIndex;
    var placed := pages[p := Placed(pages[p], id, doc)];
    PlaceInPages(pages, p, id, doc);
    LiveIdsAreOld(pages, nextId, liveCount, locations);
    assert id in LiveIds(locations);
    SaneAfterNew(pages, placed, p, k, id, doc, nextId, nextId);
    assert Active(pages, q, j) && Has(placed, q, j) && SlotIn(placed, q, j) == SlotIn(pages, q, j);
    RetireInPages(placed, q, j);
    var pages' := placed[q := MarkedDeleted(placed[q], q, j)];
    SaneAfterRetire(placed, pages', q, j, nextId);
    MovedIndexed(pages, placed, pages', nextId, locations, id, doc, p, k);
    assert LiveIds(locations[id := Location(p, k, true)]) == LiveIds(locations);
  }

  lemma MovedIndexed(pages: seq<seq<byte>>, placed: seq<seq<byte>>, pages': seq<seq<byte>>, nextId: nat,
                     locations: seq<Location>, id: nat, doc: seq<byte>, p: nat, k: nat)
    requires SlotsSane(pages, nextId) && Indexed(pages, locations) && id < |locations| && locations[id].alive
    requires NewActive(pages, placed, p, k, id, doc)
    requires Retired(placed, pages', locations[id].pageIndex, locations[id].slotIndex)
    requires SlotsSane(placed, nextId) && SlotsSane(pages', nextId)
    ensures var locations' := locations[id := Location(p, k, true)];
            && Indexed(pages', locations')
            && Objects(pages', nextId, locations') == Objects(pages, nextId, locations)[id := doc]
  {
    hide BsonFormat.ValidDocument, Readable, Slots, Payload, Objects, NewActive, Retired, SlotsSane;
    var locations' := locations[id := Location(p, k, true)];
    forall q: nat, j: nat | Active(pages', q, j)
      ensures SlotIn(pages', q, j).id < |locations'| && locations'[SlotIn(pages', q, j).id] == Location(q, j, true)
    {
      MovedActive(pages, placed, pages', locations, id, doc, p, k, q, j);
    }
    forall x: nat | x < |locations'| && locations'[x].alive
      ensures Active(pages', locations'[x].pageIndex, locations'[x].slotIndex)
      ensures SlotIn(pages', locations'[x].pageIndex, locations'[x].slotIndex).id == x
    {
      MovedSlot(pages, placed, pages', nextId, locations, id, doc, p, k, x);
    }
    assert LiveIds(locations') == LiveIds(locations);
    MovedObjects(pages, placed, pages', nextId, locations, id, doc, p, k);
  }

  lemma MovedActive(pages: seq<seq<byte>>, placed: seq<seq<byte>>, pages': seq<seq<byte>>,
                    locations: seq<Location>, id: nat, doc: seq<byte>, p: nat, k: nat, q: nat, j: nat)
    requires Indexed(pages, locations) && id < |locations| && locations[id].alive
    requires NewActive(pages, placed, p, k, id, doc)
    requires Retired(placed, pages', locations[id].pageIndex, locations[id].slotIndex)
    requires Active(pages', q, j)
    ensures var slot := SlotIn(pages', q, j);
            slot.id < |locations| && locations[id := Location(p, k, true)][slot.id] == Location(q, j, true)
  {
    hide BsonFormat.ValidDocument, Readable, Slots, Payload;
    assert Active(pages, locations[id].pageIndex, locations[id].slotIndex);
    assert Has(placed, q, j) && SlotIn(pages', q, j) == SlotIn(placed, q, j);
    if !(q == p && j == k) {
      assert Has(pages, q, j) && SlotIn(placed, q, j) == SlotIn(pages, q, j);
      assert Active(pages, q, j);
    }
  }

  /** After a move every live id's location names an active slot of that id holding its document. */
  lemma MovedSlot(pages: seq<seq<byte>>, placed: seq<seq<byte>>, pages': seq<seq<byte>>, nextId: nat,
                  locations: seq<Location>, id: nat, doc: seq<byte>, p: nat, k: nat, x: nat)
    requires SlotsSane(pages, nextId) && Indexed(pages, locations) && id < |locations| && locations[id].alive
    requires NewActive(pages, placed, p, k, id, doc)
    requires Retired(placed, pages', locations[id].pageIndex, locations[id].slotIndex)
    requires x < |locations| && locations[x].alive
    ensures var location := locations[id := Location(p, k, true)][x];
            && Active(pages', location.pageIndex, location.slotIndex)
            && SlotIn(pages', location.pageIndex, location.slotIndex).id == x
            && InPage(SlotIn(pages', location.pageIndex, location.slotIndex))
            && Active(pages, locations[x].pageIndex, locations[x].slotIndex)
            && InPage(SlotIn(pages, locations[x].pageIndex, locations[x].slotIndex))
            && DocumentIn(pages', location.pageIndex, location.slotIndex) ==
               if x == id then doc else DocumentIn(pages, locations[x].pageIndex, locations[x].slotIndex)
  {
    hide BsonFormat.ValidDocument, Readable, Slots, Payload;
    var q0, j0 := locations[id].pageIndex, locations[id].slotIndex;
    assert Active(pages, q0, j0) && Has(pages, q0, j0) && !(q0 == p && j0 == k);
    if x == id {
      assert Has(pages', p, k) && SlotIn(pages', p, k) == SlotIn(placed, p, k);
    } else {
      var q, j := locations[x].pageIndex, locations[x].slotIndex;
      assert Active(pages, q, j) && Has(placed, q, j) && SlotIn(placed, q, j) == SlotIn(pages, q, j);
      assert Has(pages', q, j) && SlotIn(pages', q, j) == SlotIn(placed, q, j);
    }
  }

  lemma MovedObjects(pages: seq<seq<byte>>, placed: seq<seq<byte>>, pages': seq<seq<byte>>, nextId: nat,
                     locations: seq<Location>, id: nat, doc: seq<byte>, p: nat, k: nat)
    requires SlotsSane(pages, nextId) && Indexed(pages, locations) && id < |locations| && locations[id].alive
    requires NewActive(pages, placed, p, k, id, doc)
    requires Retired(placed, pages', locations[id].pageIndex, locations[id].slotIndex)
    requires SlotsSane(pages', nextId) && Indexed(pages', locations[id := Location(p, k, true)])
    ensures Objects(pages', nextId, locations[id := Location(p, k, true)]) ==
              Objects(pages, nextId, locations)[id := doc]
  {
    hide BsonFormat.ValidDocument, Readable, Slots, Payload, NewActive, Retired, SlotsSane, Indexed;
    var locations' := locations[id := Location(p, k, true)];
    assert LiveIds(locations') == LiveIds(locations);
    forall x | x in LiveIds(locations)
      ensures Objects(pages', nextId, locations')[x] == if x == id then doc else Objects(pages, nextId, locations)[x]
    {
      MovedSlot(pages, placed, pages', nextId, locations, id, doc, p, k, x);
    }
  }
}
