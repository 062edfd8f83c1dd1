/** Merging a patch document into another: what an update of stored properties does. */
module BsonMerge {
  import opened Bytes
  import opened BsonFormat
  import opened BsonReader
  import opened BsonWriter
  import Utf8

  predicate HasKey(es: seq<Element>, key: seq<byte>) { exists i :: 0 <= i < |es| && es[i].key == key }

  /** The elements whose key the patch does not have, in order. */
  function Kept(os: seq<Element>, ps: seq<Element>): (r: seq<Element>) {
    if os == [] then []
    else if HasKey(ps, os[0].key) then Kept(os[1..], ps)
    else [os[0]] + Kept(os[1..], ps)
  }

  function MergedElements(os: seq<Element>, ps: seq<Element>): seq<Element> { Kept(os, ps) + ps }

  /** Whether the writer takes the elements: good keys, and a total size within the limit. */
  predicate Writable(es: seq<Element>) {
    && (forall i :: 0 <= i < |es| ==> GoodKey(es[i].key))
    && (es == [] || DocumentSize(es) <= INT32_MAX)
  }

  lemma {:induction false} DocumentSizeMonotone(es: seq<Element>, fs: seq<Element>)
    ensures DocumentSize(es) <= DocumentSize(es + fs)
  {
    EncodeElementsConcat(es, fs);
  }

  /** A list with an unwritable beginning is unwritable. */
  lemma WritablePrefix(es: seq<Element>, fs: seq<Element>)
    requires Writable(es + fs)
    ensures Writable(es)
  {
    DocumentSizeMonotone(es, fs);
    forall i | 0 <= i < |es| ensures GoodKey(es[i].key) {
      assert es[i] == (es + fs)[i];
    }
  }

  /** One more element on a handle: the buffer accepts it exactly when the longer list is writable. */
  lemma AppendWritable(es: seq<Element>, e: Element)
    requires Writable(es)
    ensures Writable(es + [e]) <==> GoodKey(e.key) && SizeWith(Handle(es), e) <= INT32_MAX
    ensures Writable(es + [e]) ==> Appended(Handle(es), e) == Handle(es + [e])
  {
    EncodeElementsSnoc(es, e);
    assert Body(Handle(es)) == EncodeElements(es);
    assert forall i :: 0 <= i < |es| ==> (es + [e])[i] == es[i];
    assert (es + [e])[|es|] == e;
    if SizeWith(Handle(es), e) <= INT32_MAX {
      AppendedToHandle(es, e);
    }
  }

  /** A buffer holding the document of the given elements. */
  ghost predicate Holds(buffer: BsonBuffer, es: seq<Element>)
    reads buffer, buffer.data
  {
    buffer.Valid() && !buffer.isStatic && Writable(es) && buffer.Contents() == Handle(es)
  }

  /** The element a copy writes for `e`: none when the patch has its key. */
  function KeptOne(e: Element, ps: seq<Element>): seq<Element> {
    if HasKey(ps, e.key) then [] else [e]
  }

  lemma KeptStep(os: seq<Element>, ps: seq<Element>)
    ensures Kept(os, ps) == if os == [] then [] else KeptOne(os[0], ps) + Kept(os[1..], ps)
  {
  }

  /** Appends the element an iterator stands on, unless `skip` has its key. */
  method CopyElement(it: BsonIterator, skip: Option<seq<byte>>, result: BsonBuffer, ghost es: seq<Element>)
    returns (ok: bool)
    requires it.Valid() && it.tag != EOD && Readable(it.Current())
    requires it as object != result && it as object != result.data
    requires Holds(result, es)
    modifies result, result.data
    ensures result.data == old(result.data) || fresh(result.data)
    ensures var now := es + KeptOne(it.Current(), if skip.Some? then HandleElements(skip.value) else []);
            (ok <==> Writable(now)) && (ok ==> Holds(result, now))
  {
    hide DocumentElements, DocumentBytes, Elements, EncodeElement, Handle, SizeWith, Writable, Utf8.Accepts;
    if skip.Some? {
      var found, at := Find(skip.value, it.key);
      if found {
        assert es + [] == es;
        return true;
      }
    }
    AppendWritable(es, it.Current());
    ok := result.AppendIterator(it);
  }

  /** Appends the elements an iterator walks over, leaving out those whose key `skip` has. */
  method CopyElements(bson: seq<byte>, skip: Option<seq<byte>>, result: BsonBuffer, ghost es: seq<Element>)
    returns (ok: bool)
    requires Holds(result, es)
    modifies result, result.data
    ensures result.data == old(result.data) || fresh(result.data)
    ensures var written := es + Kept(HandleElements(bson), if skip.Some? then HandleElements(skip.value) else []);
            (ok <==> Writable(written)) && (ok ==> Holds(result, written))
  {
    hide Kept, KeptOne, Writable, Elements, DocumentElements, DocumentBytes, DecodeElement, Readable, Handle;
    ghost var ps := if skip.Some? then HandleElements(skip.value) else [];
    ghost var written := es + Kept(HandleElements(bson), ps);
    var it := new BsonIterator();
    var more := it.Init(DocumentBytes(bson));
    ghost var done := es;
    while more
      invariant it.Valid() && fresh(it) && (more <==> it.Upcoming() != [])
      invariant result.data == old(result.data) || fresh(result.data)
      invariant Holds(result, done)
      invariant AllReadable(it.Upcoming())
      invariant written == done + Kept(it.Upcoming(), ps)
      decreases |it.Upcoming()|
    {
      ghost var one, rest := KeptOne(it.Current(), ps), Kept(it.Upcoming()[1..], ps);
      KeptStep(it.Upcoming(), ps);
      assert written == (done + one) + rest;
      ok := CopyElement(it, skip, result, done);
      if !ok {
        if Writable(written) {
          WritablePrefix(done + one, rest);
        }
        return false;
      }
      done := done + one;
      more := it.Next();
    }
    KeptStep([], ps);
    assert written == done;
    ok := true;
  }

  lemma {:induction false} KeptAll(os: seq<Element>)
    ensures Kept(os, []) == os
  {
    if os != [] {
      KeptAll(os[1..]);
    }
  }

  /** linklet_bson_merge */
  method Merge(original: seq<byte>, patch: seq<byte>) returns (ok: bool, result: BsonBuffer)
    ensures fresh(result) && fresh(result.data)
    ensures var merged := MergedElements(HandleElements(original), HandleElements(patch));
            && (ok <==> Writable(merged))
            && (ok ==> Holds(result, merged))
  {
    result := new BsonBuffer();
    ghost var os, ps := HandleElements(original), HandleElements(patch);
    KeptAll(ps);
    ok := CopyElements(original, Some(patch), result, []);
    assert [] + Kept(os, ps) == Kept(os, ps);
    if !ok {
      if Writable(MergedElements(os, ps)) {
        WritablePrefix(Kept(os, ps), ps);
      }
      return false, result;
    }
    ok := CopyElements(patch, None, result, Kept(os, ps));
  }

  // ----- What a merge means -----

  /** The stored form of a merge. */
  function Merged(original: seq<byte>, patch: seq<byte>): seq<byte>
    requires Writable(MergedElements(HandleElements(original), HandleElements(patch)))
  {
    DocumentBytes(Handle(MergedElements(HandleElements(original), HandleElements(patch))))
  }

  lemma {:induction false} KeptLookup(os: seq<Element>, ps: seq<Element>, key: seq<byte>)
    ensures FirstWithKey(Kept(os, ps), key) == if HasKey(ps, key) then None else FirstWithKey(os, key)
  {
    if os != [] {
      KeptLookup(os[1..], ps, key);
      if !HasKey(ps, os[0].key) {
        assert Kept(os, ps)[1..] == Kept(os[1..], ps);
      }
    }
  }

  lemma {:induction false} LookupInConcat(es: seq<Element>, fs: seq<Element>, key: seq<byte>)
    ensures FirstWithKey(es + fs, key) ==
            if FirstWithKey(es, key).Some? then FirstWithKey(es, key) else FirstWithKey(fs, key)
  {
    if es == [] {
      assert es + fs == fs;
    } else {
      LookupInConcat(es[1..], fs, key);
      assert (es + fs)[1..] == es[1..] + fs;
    }
  }

  /** A look-up in the merge finds the patch's element, or failing that the original's. */
  lemma MergeLookup(os: seq<Element>, ps: seq<Element>, key: seq<byte>)
    ensures FirstWithKey(MergedElements(os, ps), key) ==
            if HasKey(ps, key) then FirstWithKey(ps, key) else FirstWithKey(os, key)
  {
    KeptLookup(os, ps, key);
    LookupInConcat(Kept(os, ps), ps, key);
  }

  /** The indices from `from` on of the elements whose key the patch lacks, in ascending order, all of them. */
  ghost predicate KeepsIndices(os: seq<Element>, ps: seq<Element>, from: nat, f: seq<nat>) {
    && (forall j, k :: 0 <= j < k < |f| ==> f[j] < f[k])
    && (forall i: nat :: i in f <==> from <= i < |os| && !HasKey(ps, os[i].key))
  }

  /** The list of the elements with the indices. */
  predicate Picks(os: seq<Element>, kept: seq<Element>, f: seq<nat>) {
    |kept| == |f| && forall j :: 0 <= j < |f| ==> f[j] < |os| && kept[j] == os[f[j]]
  }

  lemma {:induction false} KeptIndices(os: seq<Element>, ps: seq<Element>, from: nat) returns (f: seq<nat>)
    requires from <= |os|
    ensures KeepsIndices(os, ps, from, f) && Picks(os, Kept(os[from..], ps), f)
    decreases |os| - from
  {
    hide HasKey, Kept, Picks, KeepsIndices;
    KeptStep(os[from..], ps);
    if from == |os| {
      f := [];
      NoIndices(os, ps);
    } else {
      f := KeptIndices(os, ps, from + 1);
      assert os[from..][1..] == os[from + 1..];
      IndicesCons(os, ps, from, f);
      if HasKey(ps, os[from].key) {
        assert [] + Kept(os[from + 1..], ps) == Kept(os[from + 1..], ps);
      } else {
        PicksCons(os, Kept(os[from + 1..], ps), from, f);
        f := [from] + f;
      }
    }
  }

  lemma NoIndices(os: seq<Element>, ps: seq<Element>)
    ensures KeepsIndices(os, ps, |os|, []) && Picks(os, [], [])
  {
  }

  lemma PicksCons(os: seq<Element>, kept: seq<Element>, from: nat, f: seq<nat>)
    requires from < |os| && Picks(os, kept, f)
    ensures Picks(os, [os[from]] + kept, [from] + f)
  {
  }

  lemma IndicesCons(os: seq<Element>, ps: seq<Element>, from: nat, g: seq<nat>)
    requires from < |os| && KeepsIndices(os, ps, from + 1, g)
    ensures KeepsIndices(os, ps, from, if HasKey(ps, os[from].key) then g else [from] + g)
  {
    hide HasKey;
    assert forall k :: 0 <= k < |g| ==> g[k] in g;
  }

  /**
   * The order of a merge: first the elements of the original whose key the patch lacks, as they
   * stand there, then the patch.
   */
  lemma MergeOrder(os: seq<Element>, ps: seq<Element>) returns (f: seq<nat>)
    ensures KeepsIndices(os, ps, 0, f)
    ensures var m := MergedElements(os, ps);
            && |m| == |f| + |ps| && m[|f|..] == ps
            && forall j :: 0 <= j < |f| ==> f[j] < |os| && m[j] == os[f[j]]
  {
    hide Kept, HasKey, KeepsIndices;
    f := KeptIndices(os, ps, 0);
    assert os[0..] == os;
  }

  lemma HasKeyConcat(es: seq<Element>, fs: seq<Element>, key: seq<byte>)
    ensures HasKey(es + fs, key) <==> HasKey(es, key) || HasKey(fs, key)
  {
    var all := es + fs;
    assert forall i :: 0 <= i < |es| ==> all[i] == es[i];
    assert forall i :: 0 <= i < |fs| ==> all[|es| + i] == fs[i];
    if HasKey(all, key) {
      var i :| 0 <= i < |all| && all[i].key == key;
      assert if i < |es| then es[i].key == key else fs[i - |es|].key == key;
    }
  }

  lemma {:induction false} KeptHasKey(os: seq<Element>, ps: seq<Element>, key: seq<byte>)
    ensures HasKey(Kept(os, ps), key) <==> HasKey(os, key) && !HasKey(ps, key)
  {
    KeptLookup(os, ps, key);
    assert HasKey(os, key) <==> FirstWithKey(os, key).Some?;
  }

  lemma {:induction false} KeptConcat(es: seq<Element>, fs: seq<Element>, ps: seq<Element>)
    ensures Kept(es + fs, ps) == Kept(es, ps) + Kept(fs, ps)
  {
    hide Kept, KeptOne, HasKey;
    KeptStep(es, ps);
    if es == [] {
      assert es + fs == fs;
    } else {
      KeptConcat(es[1..], fs, ps);
      KeptStep(es + fs, ps);
      assert (es + fs)[1..] == es[1..] + fs;
      ConcatAssoc(KeptOne(es[0], ps), Kept(es[1..], ps), Kept(fs, ps));
    }
  }

  /** Filtering by two patches in turn is filtering by their merge. */
  lemma {:induction false} KeptTwice(os: seq<Element>, ps: seq<Element>, qs: seq<Element>)
    ensures Kept(Kept(os, ps), qs) == Kept(os, MergedElements(ps, qs))
  {
    if os != [] {
      var key := os[0].key;
      KeptTwice(os[1..], ps, qs);
      HasKeyConcat(Kept(ps, qs), qs, key);
      KeptHasKey(ps, qs, key);
      if !HasKey(ps, key) {
        assert Kept(os, ps)[1..] == Kept(os[1..], ps);
      }
    }
  }

  /** Merging is associative, down to the element order and so down to the bytes. */
  lemma MergeAssociative(os: seq<Element>, ps: seq<Element>, qs: seq<Element>)
    ensures MergedElements(MergedElements(os, ps), qs) == MergedElements(os, MergedElements(ps, qs))
  {
    KeptConcat(Kept(os, ps), ps, qs);
    KeptTwice(os, ps, qs);
  }

  /** Every key of `os` is a key of `ps`. */
  predicate Covers(ps: seq<Element>, os: seq<Element>) { forall i :: 0 <= i < |os| ==> HasKey(ps, os[i].key) }

  lemma {:induction false} KeptNone(os: seq<Element>, ps: seq<Element>)
    ensures Kept(os, ps) == [] <==> Covers(ps, os)
  {
    if os != [] {
      KeptNone(os[1..], ps);
      if Covers(ps, os[1..]) && HasKey(ps, os[0].key) {
        forall i | 0 <= i < |os| ensures HasKey(ps, os[i].key) {
          assert i == 0 || os[i] == os[1..][i - 1];
        }
      }
    }
  }

  lemma CoversItself(ps: seq<Element>)
    ensures Covers(ps, ps)
  {
  }

  /** Merging the same patch again changes nothing. */
  lemma MergeIdempotent(os: seq<Element>, ps: seq<Element>)
    ensures MergedElements(MergedElements(os, ps), ps) == MergedElements(os, ps)
  {
    hide Kept, Covers;
    KeptConcat(Kept(os, ps), ps, ps);
    KeptTwice(os, ps, ps);
    CoversItself(ps);
    KeptNone(ps, ps);
    assert MergedElements(ps, ps) == ps;
  }

  /**
   * A transaction stores the patch in place of the object, autocommit stores the merge: the two
   * agree exactly when the patch has every key of the object.
   */
  lemma ReplacementIsMergeIff(os: seq<Element>, ps: seq<Element>)
    ensures MergedElements(os, ps) == ps <==> Covers(ps, os)
  {
    KeptNone(os, ps);
    assert |MergedElements(os, ps)| == |Kept(os, ps)| + |ps|;
  }

  lemma ValidElementsConcat(es: seq<Element>, fs: seq<Element>, depth: nat)
    requires ValidElements(es, depth, false, 0) && ValidElements(fs, depth, false, 0)
    ensures ValidElements(es + fs, depth, false, 0)
  {
    var all := es + fs;
    forall i | 0 <= i < |all| ensures Readable(all[i]) && ValidElement(all[i], depth, false, 0 + i) {
      if i < |es| {
        assert ValidElement(es[i], depth, false, 0 + i);
      } else {
        assert ValidElement(fs[i - |es|], depth, false, 0 + (i - |es|));
      }
    }
  }

  lemma {:induction false} KeptValid(os: seq<Element>, ps: seq<Element>, depth: nat)
    requires ValidElements(os, depth, false, 0)
    ensures ValidElements(Kept(os, ps), depth, false, 0)
  {
    if os != [] {
      var rest := os[1..];
      forall i | 0 <= i < |rest| ensures ValidElement(rest[i], depth, false, 0 + i) {
        assert ValidElement(os[i + 1], depth, false, 0 + (i + 1));
      }
      KeptValid(rest, ps, depth);
      assert ValidElement(os[0], depth, false, 0 + 0);
      ValidElementsConcat([os[0]], Kept(rest, ps), depth);
    }
  }

  /** The merge of two valid documents that fits the size limit is a valid document. */
  lemma MergeKeepsValid(original: seq<byte>, patch: seq<byte>)
    requires ValidDocument(DocumentBytes(original)) && ValidDocument(DocumentBytes(patch))
    requires Writable(MergedElements(HandleElements(original), HandleElements(patch)))
    ensures ValidDocument(Merged(original, patch))
    ensures DocumentElements(Merged(original, patch)) == MergedElements(HandleElements(original), HandleElements(patch))
  {
    hide ValidRange, ValidElement, LoadU32, EncodeDocument, Elements, DocumentBytes, Utf8.Accepts;
    var os, ps := HandleElements(original), HandleElements(patch);
    ValidDocumentDetermined(DocumentBytes(original));
    ValidDocumentDetermined(DocumentBytes(patch));
    KeptValid(os, ps, 0);
    ValidElementsConcat(Kept(os, ps), ps, 0);
    var merged := MergedElements(os, ps);
    if merged != [] {
      EncodedDocumentParts(merged);
      EncodingIsValidRange(merged, 0, false);
    }
  }
}
