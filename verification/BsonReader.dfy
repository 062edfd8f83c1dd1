/** The element iterator and the look-ups built on it. */
module BsonReader {
  import opened Bytes
  import opened BsonFormat
  import BsonValidator

  /** A document handle: no bytes at all stand for the empty document. */
  function DocumentBytes(bson: seq<byte>): (d: seq<byte>)
    ensures bson != [] ==> d == bson
    ensures bson == [] ==> ValidDocument(d) && DocumentElements(d) == []
  {
    if bson == [] then
      assert [5, 0, 0, 0, 0][4..] == [0];
      [5, 0, 0, 0, 0]
    else bson
  }

  /** The first element with the given key. */
  function FirstWithKey(es: seq<Element>, key: seq<byte>): (r: Option<Element>)
    ensures r.Some? ==> r.value in es && r.value.key == key
    ensures r.None? <==> forall i :: 0 <= i < |es| ==> es[i].key != key
  {
    if es == [] then None
    else if es[0].key == key then Some(es[0])
    else FirstWithKey(es[1..], key)
  }

  /** It stands before every other element with the key. */
  lemma {:induction false} FirstIsFirst(es: seq<Element>, key: seq<byte>) returns (i: nat)
    requires FirstWithKey(es, key).Some?
    ensures i < |es| && es[i] == FirstWithKey(es, key).value && es[i].key == key
    ensures forall j :: 0 <= j < i ==> es[j].key != key
  {
    if es[0].key == key {
      i := 0;
    } else {
      var later := FirstIsFirst(es[1..], key);
      i := later + 1;
      assert forall j :: 1 <= j < i ==> es[j] == es[1..][j - 1];
    }
  }

  /** The lengths of the key and the value of the element at the head of `t`, when there is one. */
  method Measure(t: seq<byte>) returns (ok: bool, keyLength: nat, size: nat)
    ensures ok <==> DecodeElement(t).Some?
    ensures ok ==> 2 + keyLength + size <= |t|
    ensures ok ==> DecodeElement(t).value ==
                   Element(t[0], t[1..1 + keyLength], t[2 + keyLength..][..size])
  {
    keyLength, size := 0, 0;
    if t == [] || t[0] == EOD {
      return false, 0, 0;
    }
    keyLength := BsonValidator.ScanForZero(t[1..]);
    if keyLength == |t| - 1 {
      return false, 0, 0;
    }
    size := ValueSize(t[0], t[2 + keyLength..]);
    if size == 0 && !HasNoValue(t[0]) {
      return false, 0, 0;
    }
    ok := true;
  }

  /** The parts of a decoded element as slices of the document. */
  lemma DecodedSlices(data: seq<byte>, at: nat, keyLength: nat, size: nat)
    requires at <= |data| && DecodeElement(data[at..]).Some? && at + 2 + keyLength + size <= |data|
    requires var e := DecodeElement(data[at..]).value; keyLength == |e.key| && size == |e.value|
    ensures var start := at + 2 + keyLength;
            data[at] != EOD && DecodeElement(data[at..]) ==
            Some(Element(data[at], data[at + 1..at + 1 + keyLength], data[start..start + size]))
  {
    hide FindZero, ValueSize;
    SliceOfDrop(data, at, 1, 1 + keyLength);
    DropOfDrop(data, at, 2 + keyLength);
    SliceOfDrop(data, at + 2 + keyLength, 0, size);
  }

  lemma NothingDecoded()
    ensures DecodeElement([]) == None
  {
  }

  class BsonIterator {
    var data: seq<byte>
    var offset: nat
    var nextOffset: nat
    var tag: byte
    var key: seq<byte>
    var valueOffset: nat

    /** A positioned iterator describes the element at its offset; an exhausted one has tag EOD. */
    ghost predicate Valid()
      reads this
    {
      tag != EOD ==>
        && offset < valueOffset <= nextOffset <= |data|
        && DecodeElement(data[offset..]) == Some(Current())
        && nextOffset == offset + |EncodeElement(Current())|
    }

    function Value(): seq<byte>
      requires valueOffset <= nextOffset <= |data|
      reads this
    {
      data[valueOffset..nextOffset]
    }

    ghost function Current(): Element
      requires valueOffset <= nextOffset <= |data|
      reads this
    {
      Element(tag, key, Value())
    }

    /** The elements from the current one to the end of the walk. */
    ghost function Upcoming(): (es: seq<Element>)
      requires Valid()
      reads this
      ensures tag == EOD <==> es == []
      ensures tag != EOD ==> es[0] == Current() && es[1..] == Elements(data[nextOffset..])
    {
      if tag == EOD then []
      else
        var es := Elements(data[offset..]);
        assert data[offset..][|EncodeElement(Current())|..] == data[nextOffset..];
        es
    }

    constructor ()
      ensures Valid() && tag == EOD
    {
      data, offset, nextOffset, tag, key, valueOffset := [], 0, 0, EOD, [], 0;
    }

    method DecodeAt(at: nat) returns (ok: bool)
      modifies this
      ensures data == old(data)
      ensures ok <==> at <= |data| && DecodeElement(data[at..]).Some?
      ensures ok ==> Valid() && tag != EOD && offset == at
      ensures !ok ==> unchanged(this)
    {
      hide DecodeElement, EncodeElement, ValueSize;
      if at + 1 > |data| {
        NothingDecoded();
        return false;
      }
      var keyLength, size;
      ok, keyLength, size := Measure(data[at..]);
      if ok {
        var start := at + 1 + keyLength + 1;
        DecodedSlices(data, at, keyLength, size);
        offset, tag, key, valueOffset := at, data[at], data[at + 1..at + 1 + keyLength], start;
        nextOffset := start + size;
      }
    }

    method Init(bytes: seq<byte>) returns (ok: bool)
      modifies this
      ensures Valid() && data == bytes
      ensures Upcoming() == DocumentElements(bytes)
      ensures ok <==> Upcoming() != []
    {
      data, offset, nextOffset, tag, key, valueOffset := bytes, 0, 0, EOD, [], 0;
      if |bytes| < EMPTY_DOCUMENT_SIZE {
        return false;
      }
      ok := DecodeAt(4);
      if !ok {
        tag, key, valueOffset := EOD, [], 0;
      }
    }

    /** One step: the next element, at a larger offset, or exhaustion. */
    method Next() returns (ok: bool)
      requires Valid()
      modifies this
      ensures Valid() && data == old(data)
      ensures old(tag) == EOD ==> !ok && Upcoming() == []
      ensures old(tag) != EOD ==> Upcoming() == old(Upcoming())[1..]
      ensures ok <==> Upcoming() != []
      ensures ok ==> offset == old(nextOffset) > old(offset)
    {
      if tag == EOD {
        return false;
      }
      ok := DecodeAt(nextOffset);
      if !ok {
        tag, key, valueOffset := EOD, [], 0;
      }
    }
  }

  /**
   * On a valid document a walk that cannot decode another element stands on the final terminator:
   * it never stops at a decode failure.
   */
  lemma {:induction false} WalkStopsAtTerminator(t: seq<byte>, depth: nat, isArray: bool, index: nat)
    requires ValidTail(t, depth, isArray, index)
    ensures |EncodeElements(Elements(t))| == |t| - 1
    ensures DecodeElement(t).None? ==> t == [EOD]
  {
    ValidTailDetermined(t, depth, isArray, index);
    if DecodeElement(t).None? {
      assert t[0] == EOD;
    }
  }

  /** linklet_bson_find: the first element with the key, when there is one. */
  method Find(bson: seq<byte>, key: seq<byte>) returns (found: bool, it: BsonIterator)
    ensures fresh(it) && it.Valid()
    ensures var first := FirstWithKey(DocumentElements(DocumentBytes(bson)), key);
            found == first.Some? && (found ==> it.tag != EOD && it.Current() == first.value)
  {
    it := new BsonIterator();
    ghost var es := DocumentElements(DocumentBytes(bson));
    var ok := it.Init(DocumentBytes(bson));
    if !ok {
      return false, it;
    }
    while it.tag != EOD
      invariant it.Valid()
      invariant FirstWithKey(es, key) == FirstWithKey(it.Upcoming(), key)
      decreases |it.Upcoming()|
    {
      if it.key == key {
        return true, it;
      }
      var more := it.Next();
      if !more {
        break;
      }
    }
    return false, it;
  }

  method CountKeys(bson: seq<byte>) returns (count: nat)
    ensures count == |DocumentElements(DocumentBytes(bson))|
  {
    var it := new BsonIterator();
    ghost var es := DocumentElements(DocumentBytes(bson));
    var more := it.Init(DocumentBytes(bson));
    if !more {
      return 0;
    }
    count := 0;
    while more
      invariant it.Valid()
      invariant more <==> it.Upcoming() != []
      invariant count + |it.Upcoming()| == |es|
      decreases |it.Upcoming()|
    {
      count := count + 1;
      more := it.Next();
    }
  }
}
