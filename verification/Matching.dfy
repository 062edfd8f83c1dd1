/** Matching: scans with filters, and one-edge patterns joined from three scans. */
module Matching {
  import opened Bytes
  import opened BsonFormat
  import opened BsonReader
  import opened PropertyGraph
  import opened GraphStore
  import opened PagedObjectFile
  import BsonWriter

  datatype Filter = Filter(id: Option<u64>, labelText: Option<seq<byte>>, properties: seq<byte>)

  datatype Kind = NODE | EDGE

  datatype Binding = SOURCE | LINK | DESTINATION

  datatype Direction = RIGHT | LEFT

  datatype Pattern =
    Pattern(isEdge: bool, source: Filter, edge: Filter, destination: Filter, kind: Kind, binding: Binding)

  /** What the binder guarantees of a pattern: the result kind is that of the bound element. */
  predicate Bound(p: Pattern) {
    (p.kind == EDGE <==> p.binding == LINK) && (!p.isEdge ==> p.binding == SOURCE)
  }

  // ----- Filters -----

  const LABELS: seq<byte> := [95, 108, 97, 98, 101, 108, 115]

  /** The text of a string element, its terminator left out. */
  function TextOf(e: Element): seq<byte>
    requires Readable(e) && e.tag == UTF8
  {
    e.value[4..|e.value| - 1]
  }

  predicate IsText(e: Element, text: seq<byte>) { Readable(e) && e.tag == UTF8 && TextOf(e) == text }

  ghost predicate ListsText(labels: seq<byte>, text: seq<byte>) {
    var es := DocumentElements(DocumentBytes(labels));
    exists i :: 0 <= i < |es| && IsText(es[i], text)
  }

  /** The label array of a document lists the text. */
  ghost predicate HasLabel(doc: seq<byte>, text: seq<byte>) {
    match FirstWithKey(DocumentElements(DocumentBytes(doc)), LABELS)
    case None => false
    case Some(e) => e.tag == ARRAY && ListsText(e.value, text)
  }

  /** The document has the property: its first element with the key has the same type and value. */
  predicate HasProperty(doc: seq<byte>, property: Element) {
    match FirstWithKey(DocumentElements(DocumentBytes(doc)), property.key)
    case None => false
    case Some(e) => e.tag == property.tag && e.value == property.value
  }

  ghost predicate HasProperties(doc: seq<byte>, properties: seq<byte>) {
    var es := DocumentElements(DocumentBytes(properties));
    forall i :: 0 <= i < |es| ==> HasProperty(doc, es[i])
  }

  ghost predicate FilterHolds(f: Filter, doc: seq<byte>) {
    (f.labelText.Some? ==> HasLabel(doc, f.labelText.value)) && HasProperties(doc, f.properties)
  }

  /** An object passes a filter: the id, where the filter has one, and the document. */
  ghost predicate Passes(f: Filter, id: nat, doc: seq<byte>) {
    (f.id.Some? ==> f.id.value == id) && FilterHolds(f, doc)
  }

  /** linklet_bson_iterator_utf8 compared with a label */
  method TextIs(it: BsonIterator, text: seq<byte>) returns (r: bool)
    requires it.Valid() && it.tag != EOD && Readable(it.Current())
    ensures r <==> IsText(it.Current(), text)
  {
    r := it.tag == UTF8 && it.Value()[4..|it.Value()| - 1] == text;
  }

  /** The loop over the elements of a label array. */
  method FindText(labels: seq<byte>, text: seq<byte>) returns (r: bool)
    ensures r <==> ListsText(labels, text)
  {
    hide DocumentElements, DocumentBytes, Elements, DecodeElement, EncodeElement, Readable, IsText;
    var it := new BsonIterator();
    ghost var es := DocumentElements(DocumentBytes(labels));
    ghost var seen := 0;
    var more := it.Init(DocumentBytes(labels));
    while more
      invariant it.Valid() && fresh(it) && (more <==> it.Upcoming() != [])
      invariant seen <= |es| && it.Upcoming() == es[seen..]
      invariant forall i :: 0 <= i < seen ==> !IsText(es[i], text)
      decreases |es| - seen
    {
      assert es[seen..][0] == es[seen];
      var same := TextIs(it, text);
      if same {
        return true;
      }
      more := it.Next();
      seen := seen + 1;
    }
    return false;
  }

  method CheckLabel(doc: seq<byte>, text: seq<byte>) returns (r: bool)
    ensures r <==> HasLabel(doc, text)
  {
    hide DocumentElements, DocumentBytes, ListsText;
    var found, labels := Find(doc, LABELS);
    if !found || labels.tag != ARRAY {
      return false;
    }
    r := FindText(labels.Value(), text);
  }

  /** A property looked up and compared. */
  method CheckProperty(doc: seq<byte>, it: BsonIterator) returns (r: bool)
    requires it.Valid() && it.tag != EOD && Readable(it.Current())
    ensures r <==> HasProperty(doc, it.Current())
  {
    hide DocumentElements, DocumentBytes;
    var found, actual := Find(doc, it.key);
    r := found && actual.tag == it.tag && actual.Value() == it.Value();
  }

  method CheckProperties(doc: seq<byte>, properties: seq<byte>) returns (r: bool)
    ensures r <==> HasProperties(doc, properties)
  {
    hide DocumentElements, DocumentBytes, Elements, DecodeElement, EncodeElement, Readable, HasProperty;
    var it := new BsonIterator();
    ghost var es := DocumentElements(DocumentBytes(properties));
    ghost var seen := 0;
    var more := it.Init(DocumentBytes(properties));
    while more
      invariant it.Valid() && fresh(it) && (more <==> it.Upcoming() != [])
      invariant seen <= |es| && it.Upcoming() == es[seen..]
      invariant forall i :: 0 <= i < seen ==> HasProperty(doc, es[i])
      decreases |es| - seen
    {
      assert es[seen..][0] == es[seen];
      var same := CheckProperty(doc, it);
      if !same {
        return false;
      }
      more := it.Next();
      seen := seen + 1;
    }
    return true;
  }

  method CheckFilter(f: Filter, doc: seq<byte>) returns (r: bool)
    ensures r <==> FilterHolds(f, doc)
  {
    hide HasLabel, HasProperties;
    if f.labelText.Some? {
      r := CheckLabel(doc, f.labelText.value);
      if !r {
        return false;
      }
    }
    r := CheckProperties(doc, f.properties);
  }

  // ----- Scans -----

  /** The documents of the live objects of a kind. */
  function Objects(g: Graph, kind: Kind): map<nat, seq<byte>> {
    if kind == NODE then g.nodes else map id | id in g.edges :: g.edges[id].doc
  }

  function Capacity(g: Graph, kind: Kind): nat { if kind == NODE then g.nextNode else g.nextEdge }

  /** The id, if its object passes. */
  ghost function ScanOne(objects: map<nat, seq<byte>>, f: Filter, id: nat): seq<nat> {
    if id in objects && Passes(f, id, objects[id]) then [id] else []
  }

  /** The ids from `from` up to `to` whose objects pass the filter, in ascending order. */
  ghost function Scan(objects: map<nat, seq<byte>>, f: Filter, from: nat, to: nat): seq<nat>
    decreases if from < to then to - from else 0
  {
    if from >= to then []
    else ScanOne(objects, f, from) + Scan(objects, f, from + 1, to)
  }

  /** Where no id passes, a scan finds nothing. */
  lemma {:induction false} ScanNothing(objects: map<nat, seq<byte>>, f: Filter, from: nat, to: nat)
    requires f.id.Some? && !(from <= f.id.value < to)
    ensures Scan(objects, f, from, to) == []
    decreases if from < to then to - from else 0
  {
    if from < to {
      ScanNothing(objects, f, from + 1, to);
    }
  }

  lemma {:induction false} ScanSplit(objects: map<nat, seq<byte>>, f: Filter, from: nat, middle: nat, to: nat)
    requires from <= middle <= to
    ensures Scan(objects, f, from, to) == Scan(objects, f, from, middle) + Scan(objects, f, middle, to)
    decreases middle - from
  {
    if from < middle {
      ScanSplit(objects, f, from + 1, middle, to);
    }
  }

  /** The range a scan walks: one id when the filter has one, the end wrapping around at 2^64. */
  function ScanEnd(f: Filter, capacity: nat): (end: nat)
    ensures end <= capacity
    ensures f.id.Some? ==> end <= f.id.value + 1
  {
    match f.id
    case None => capacity
    case Some(id) => var end := (id + 1) % 0x1_0000_0000_0000_0000; if end < capacity then end else capacity
  }

  function ScanBegin(f: Filter): nat { if f.id.Some? then f.id.value else 0 }

  /** The id shortcut loses nothing: the short range gives the same list as the whole. */
  lemma ShortcutIsScan(objects: map<nat, seq<byte>>, f: Filter, capacity: u64)
    ensures Scan(objects, f, ScanBegin(f), ScanEnd(f, capacity)) == Scan(objects, f, 0, capacity)
  {
    hide Passes;
    if f.id.Some? {
      var id := f.id.value;
      if id < capacity {
        ScanSplit(objects, f, 0, id, capacity);
        ScanSplit(objects, f, id, id + 1, capacity);
        ScanNothing(objects, f, 0, id);
        ScanNothing(objects, f, id + 1, capacity);
      } else {
        ScanNothing(objects, f, 0, capacity);
      }
    }
  }

  lemma NodesAreObjects(g: Graph)
    ensures Objects(g, NODE) == g.nodes
  {
  }

  method ReadElement(store: Store, kind: Kind, id: u64, ghost g: Graph) returns (live: bool, doc: seq<byte>)
    requires store.Represents(g)
    ensures live <==> id in Objects(g, kind)
    ensures live ==> doc == Objects(g, kind)[id]
  {
    hide Store.Valid, Store.Graph;
    if kind == NODE {
      live, doc := store.ReadNode(id, g);
    } else {
      live, doc := store.ReadEdge(id, g);
    }
  }

  /** One turn of a scan: whether the id is live and its object passes. */
  method ScanTurn(store: Store, kind: Kind, f: Filter, id: u64, ghost g: Graph) returns (matched: bool)
    requires store.Represents(g)
    requires f.id.Some? ==> f.id.value == id
    ensures ScanOne(Objects(g, kind), f, id) == if matched then [id] else []
  {
    hide Store.Valid, Store.Graph, FilterHolds, Objects;
    var live, doc := ReadElement(store, kind, id, g);
    matched := false;
    if live {
      matched := CheckFilter(f, doc);
    }
  }

  /** scan_elements */
  method ScanElements(store: Store, kind: Kind, f: Filter, ghost g: Graph) returns (ids: seq<nat>)
    requires store.Represents(g)
    ensures ids == Scan(Objects(g, kind), f, 0, Capacity(g, kind))
  {
    hide Store.Valid, Store.Graph, Objects, ScanEnd, ScanOne;
    ghost var objects := Objects(g, kind);
    var nodeIds, edgeIds := store.IdCapacities(g);
    var capacity := if kind == NODE then nodeIds else edgeIds;
    var end := ScanEnd(f, capacity);
    var id := ScanBegin(f);
    ids := [];
    ShortcutIsScan(objects, f, capacity);
    while id < end
      invariant ScanBegin(f) <= id
      invariant ids + Scan(objects, f, id, end) == Scan(objects, f, 0, capacity)
      decreases if id < end then end - id else 0
    {
      var matched := ScanTurn(store, kind, f, id, g);
      if matched {
        ids := ids + [id];
      }
      id := id + 1;
    }
  }

  lemma {:induction false} ScanContains(objects: map<nat, seq<byte>>, f: Filter, from: nat, to: nat, id: nat)
    ensures id in Scan(objects, f, from, to) <==> from <= id < to && id in objects && Passes(f, id, objects[id])
    decreases if from < to then to - from else 0
  {
    hide Passes;
    if from < to {
      ScanContains(objects, f, from + 1, to, id);
    }
  }

  predicate Ascending(ids: seq<nat>) { forall i, j :: 0 <= i < j < |ids| ==> ids[i] < ids[j] }

  lemma AscendingCons(id: nat, ids: seq<nat>)
    requires Ascending(ids) && forall x :: x in ids ==> id < x
    ensures Ascending([id] + ids)
  {
    forall j | 0 <= j < |ids| ensures id < ids[j] {
      assert ids[j] in ids;
    }
  }

  /** A scan lists exactly the live ids that pass, in ascending order. */
  lemma {:induction false} ScanIsRelation(objects: map<nat, seq<byte>>, f: Filter, from: nat, to: nat)
    ensures var ids := Scan(objects, f, from, to);
      && (forall id :: id in ids <==> from <= id < to && id in objects && Passes(f, id, objects[id]))
      && (Ascending(ids))
    decreases if from < to then to - from else 0
  {
    hide Passes;
    if from < to {
      ScanIsRelation(objects, f, from + 1, to);
      AscendingCons(from, Scan(objects, f, from + 1, to));
    }
  }

  // ----- Patterns -----

  /** The ends of an edge in the direction the pattern reads it. */
  function StartOf(e: EdgeRecord, direction: Direction): nat { if direction == RIGHT then e.source else e.destination }

  function EndOf(e: EdgeRecord, direction: Direction): nat { if direction == RIGHT then e.destination else e.source }

  ghost predicate NodePasses(g: Graph, f: Filter, id: nat) { id in g.nodes && Passes(f, id, g.nodes[id]) }

  ghost predicate EndsPass(g: Graph, p: Pattern, direction: Direction, e: nat)
    requires e in g.edges
  {
    && NodePasses(g, p.source, StartOf(g.edges[e], direction))
    && NodePasses(g, p.destination, EndOf(g.edges[e], direction))
  }

  /** The relation a pattern denotes: a live edge that passes, between nodes that pass. */
  ghost predicate Matched(g: Graph, p: Pattern, direction: Direction, e: nat) {
    e in g.edges && Passes(p.edge, e, g.edges[e].doc) && EndsPass(g, p, direction, e)
  }

  function Project(g: Graph, p: Pattern, direction: Direction, e: nat): nat
    requires e in g.edges
  {
    match p.binding
    case SOURCE => StartOf(g.edges[e], direction)
    case LINK => e
    case DESTINATION => EndOf(g.edges[e], direction)
  }

  /** One projected id for each matched edge of the list, in order. */
  ghost function Joined(g: Graph, p: Pattern, direction: Direction, es: seq<nat>): seq<nat>
    requires forall i :: 0 <= i < |es| ==> es[i] in g.edges
  {
    if es == [] then []
    else
      (if EndsPass(g, p, direction, es[0]) then [Project(g, p, direction, es[0])] else [])
      + Joined(g, p, direction, es[1..])
  }

  lemma EdgeScan(g: Graph, f: Filter, from: nat)
    ensures forall i :: 0 <= i < |Scan(Objects(g, EDGE), f, from, g.nextEdge)| ==>
              Scan(Objects(g, EDGE), f, from, g.nextEdge)[i] in g.edges
  {
    hide Passes;
    var es := Scan(Objects(g, EDGE), f, from, g.nextEdge);
    forall i | 0 <= i < |es| ensures es[i] in g.edges {
      ScanContains(Objects(g, EDGE), f, from, g.nextEdge, es[i]);
    }
  }

  /** What a pattern resolves to. */
  ghost function Resolved(g: Graph, p: Pattern, direction: Direction): seq<nat> {
    if !p.isEdge then Scan(g.nodes, p.source, 0, g.nextNode)
    else EdgeScan(g, p.edge, 0); Joined(g, p, direction, Scan(Objects(g, EDGE), p.edge, 0, g.nextEdge))
  }

  predicate Contains(ids: seq<nat>, id: nat) { exists i :: 0 <= i < |ids| && ids[i] == id }

  /** id_list_contains */
  method ListContains(ids: seq<nat>, id: nat) returns (r: bool)
    ensures r <==> Contains(ids, id)
  {
    for index := 0 to |ids|
      invariant forall i :: 0 <= i < index ==> ids[i] != id
    {
      if ids[index] == id {
        return true;
      }
    }
    return false;
  }

  /** A list of scanned nodes contains exactly the nodes that pass. */
  lemma NodeScanContains(g: Graph, f: Filter, id: nat)
    requires GraphOk(g)
    ensures Contains(Scan(g.nodes, f, 0, g.nextNode), id) <==> NodePasses(g, f, id)
  {
    hide Passes;
    ScanContains(g.nodes, f, 0, g.nextNode, id);
    assert Contains(Scan(g.nodes, f, 0, g.nextNode), id) <==> id in Scan(g.nodes, f, 0, g.nextNode);
  }

  /** One turn of the join: the projected id of an edge whose ends were both scanned. */
  method JoinEdge(store: Store, p: Pattern, direction: Direction, sources: seq<nat>, destinations: seq<nat>, e: u64,
                  ghost g: Graph)
    returns (matched: bool, value: nat)
    requires store.Represents(g) && e in g.edges
    requires sources == Scan(g.nodes, p.source, 0, g.nextNode)
    requires destinations == Scan(g.nodes, p.destination, 0, g.nextNode)
    ensures matched <==> EndsPass(g, p, direction, e)
    ensures matched ==> value == Project(g, p, direction, e)
  {
    hide Store.Valid, Store.Graph, Passes, Scan, GraphOk;
    var found, physicalSource, physicalDestination := store.EdgeEndpoints(e, g);
    var source := if direction == RIGHT then physicalSource else physicalDestination;
    var destination := if direction == RIGHT then physicalDestination else physicalSource;
    store.GraphInOrder();
    NodeScanContains(g, p.source, source);
    NodeScanContains(g, p.destination, destination);
    var isSource := ListContains(sources, source);
    var isDestination := ListContains(destinations, destination);
    matched := isSource && isDestination;
    value := if p.binding == SOURCE then source else if p.binding == LINK then e else destination;
  }

  /** linklet_resolve_match: three scans, joined through the edge endpoints. */
  method ResolveMatch(store: Store, p: Pattern, direction: Direction) returns (ids: seq<nat>)
    requires store.Valid()
    ensures ids == Resolved(store.Graph(), p, direction)
  {
    hide Store.Valid, Store.Graph, Scan, EndsPass, Project, Objects, GraphOk, Joined;
    ghost var g := store.Graph();
    NodesAreObjects(g);
    if !p.isEdge {
      ids := ScanElements(store, NODE, p.source, g);
      return;
    }
    var sources := ScanElements(store, NODE, p.source, g);
    var edges := ScanElements(store, EDGE, p.edge, g);
    var destinations := ScanElements(store, NODE, p.destination, g);
    EdgeScan(g, p.edge, 0);
    EdgeScanBounded(store, p.edge);
    ids := [];
    for index := 0 to |edges|
      invariant ids + Joined(g, p, direction, edges[index..]) == Joined(g, p, direction, edges)
    {
      var matched, value := JoinEdge(store, p, direction, sources, destinations, edges[index], g);
      assert edges[index..] == [edges[index]] + edges[index + 1..];
      JoinedCons(g, p, direction, edges[index], edges[index + 1..]);
      if matched {
        ids := ids + [value];
      }
    }
    assert edges[|edges|..] == [];
    JoinedNone(g, p, direction);
  }

  /** Scanned edge ids fit the store's id type. */
  lemma EdgeScanBounded(store: Store, f: Filter)
    requires store.Valid()
    ensures forall i :: 0 <= i < |Scan(Objects(store.Graph(), EDGE), f, 0, store.Graph().nextEdge)| ==>
              Scan(Objects(store.Graph(), EDGE), f, 0, store.Graph().nextEdge)[i] <= UINT64_MAX
  {
    hide Passes, ObjectFile.Valid, ObjectFile.Contents;
    EdgeScan(store.Graph(), f, 0);
  }

  // ----- What patterns mean -----

  /** The matched edges in ascending order: the relation itself, listed. */
  ghost predicate ListsMatched(g: Graph, p: Pattern, direction: Direction, es: seq<nat>) {
    && (forall e :: e in es <==> Matched(g, p, direction, e))
    && Ascending(es)
  }

  lemma JoinedCons(g: Graph, p: Pattern, direction: Direction, e: nat, es: seq<nat>)
    requires e in g.edges && forall i :: 0 <= i < |es| ==> es[i] in g.edges
    ensures forall i :: 0 <= i < |[e] + es| ==> ([e] + es)[i] in g.edges
    ensures Joined(g, p, direction, [e] + es) ==
            (if EndsPass(g, p, direction, e) then [Project(g, p, direction, e)] else []) + Joined(g, p, direction, es)
  {
    hide EndsPass, Project;
    assert ([e] + es)[1..] == es;
  }

  /** A result list read against edge ids: the projection of each, in the same order. */
  ghost predicate Projects(g: Graph, p: Pattern, direction: Direction, es: seq<nat>, ids: seq<nat>) {
    && |ids| == |es|
    && (forall i :: 0 <= i < |es| ==> es[i] in g.edges && ids[i] == Project(g, p, direction, es[i]))
  }

  /** The relation listed by a search of all edge ids. */
  ghost function MatchedFrom(g: Graph, p: Pattern, direction: Direction, from: nat): seq<nat>
    decreases if from < g.nextEdge then g.nextEdge - from else 0
  {
    if from >= g.nextEdge then []
    else (if Matched(g, p, direction, from) then [from] else []) + MatchedFrom(g, p, direction, from + 1)
  }

  lemma {:induction false} MatchedFromLists(g: Graph, p: Pattern, direction: Direction, from: nat)
    requires GraphOk(g)
    ensures forall e :: e in MatchedFrom(g, p, direction, from) <==> from <= e && Matched(g, p, direction, e)
    ensures Ascending(MatchedFrom(g, p, direction, from))
    decreases if from < g.nextEdge then g.nextEdge - from else 0
  {
    hide Passes, EndsPass;
    if from < g.nextEdge {
      MatchedFromLists(g, p, direction, from + 1);
      AscendingCons(from, MatchedFrom(g, p, direction, from + 1));
    }
  }

  lemma EdgeScanOne(g: Graph, p: Pattern, direction: Direction, e: nat)
    ensures ScanOne(Objects(g, EDGE), p.edge, e) ==
            if e in g.edges && Passes(p.edge, e, g.edges[e].doc) then [e] else []
    ensures Matched(g, p, direction, e) <==> ScanOne(Objects(g, EDGE), p.edge, e) == [e] && EndsPass(g, p, direction, e)
  {
    hide Passes, EndsPass;
  }

  lemma {:induction false} JoinedProjects(g: Graph, p: Pattern, direction: Direction, from: nat)
    ensures forall i :: 0 <= i < |Scan(Objects(g, EDGE), p.edge, from, g.nextEdge)| ==>
              Scan(Objects(g, EDGE), p.edge, from, g.nextEdge)[i] in g.edges
    ensures Projects(g, p, direction, MatchedFrom(g, p, direction, from),
              Joined(g, p, direction, Scan(Objects(g, EDGE), p.edge, from, g.nextEdge)))
    decreases if from < g.nextEdge then g.nextEdge - from else 0
  {
    hide Passes, EndsPass, Project, Matched, Objects, ScanOne, Joined, Projects;
    EdgeScan(g, p.edge, from);
    JoinedNone(g, p, direction);
    if from < g.nextEdge {
      JoinedProjects(g, p, direction, from + 1);
      EdgeScanOne(g, p, direction, from);
      var later, es := Scan(Objects(g, EDGE), p.edge, from + 1, g.nextEdge), MatchedFrom(g, p, direction, from + 1);
      if ScanOne(Objects(g, EDGE), p.edge, from) == [from] {
        JoinedCons(g, p, direction, from, later);
        ProjectsCons(g, p, direction, from, es, Joined(g, p, direction, later));
        assert [] + es == es && [] + Joined(g, p, direction, later) == Joined(g, p, direction, later);
      } else {
        assert [] + es == es && [] + later == later;
      }
    }
  }

  lemma ProjectsCons(g: Graph, p: Pattern, direction: Direction, e: nat, es: seq<nat>, ids: seq<nat>)
    requires e in g.edges && Projects(g, p, direction, es, ids)
    ensures Projects(g, p, direction, [e] + es, [Project(g, p, direction, e)] + ids)
  {
    hide Project;
  }

  lemma JoinedNone(g: Graph, p: Pattern, direction: Direction)
    ensures Joined(g, p, direction, []) == [] && Projects(g, p, direction, [], [])
  {
  }

  /**
   * A resolved edge pattern is the relation it denotes: one projected id for each live edge whose
   * edge, source and destination filters hold under the direction, by ascending edge id.
   */
  lemma ResolvedIsRelation(g: Graph, p: Pattern, direction: Direction) returns (es: seq<nat>)
    requires GraphOk(g) && p.isEdge
    ensures ListsMatched(g, p, direction, es)
    ensures Projects(g, p, direction, es, Resolved(g, p, direction))
  {
    hide Matched, Passes, EndsPass, Project, Scan;
    es := MatchedFrom(g, p, direction, 0);
    MatchedFromLists(g, p, direction, 0);
    JoinedProjects(g, p, direction, 0);
  }

  /** At most one list lists the relation, so the result list is determined. */
  lemma {:induction false} ListsMatchedOnce(g: Graph, p: Pattern, direction: Direction, es: seq<nat>, fs: seq<nat>)
    requires ListsMatched(g, p, direction, es) && ListsMatched(g, p, direction, fs)
    ensures es == fs
  {
    hide Matched;
    AscendingDetermined(es, fs);
  }

  lemma {:induction false} AscendingDetermined(es: seq<nat>, fs: seq<nat>)
    requires forall e :: e in es <==> e in fs
    requires Ascending(es)
    requires Ascending(fs)
    ensures es == fs
  {
    assert es != [] ==> es[0] in fs;
    assert fs != [] ==> fs[0] in es;
    if es != [] && fs != [] {
      assert es[0] == fs[0];
      forall e ensures e in es[1..] <==> e in fs[1..] {
        assert e in es[1..] <==> e in es && e != es[0];
        assert e in fs[1..] <==> e in fs && e != fs[0];
      }
      AscendingDetermined(es[1..], fs[1..]);
    }
  }

  /** A pattern with its ends swapped, filters and binding alike. */
  function Swap(p: Pattern): Pattern {
    p.(source := p.destination, destination := p.source,
       binding := match p.binding case SOURCE => DESTINATION case LINK => LINK case DESTINATION => SOURCE)
  }

  lemma {:induction false} JoinedSwapped(g: Graph, p: Pattern, es: seq<nat>)
    requires forall i :: 0 <= i < |es| ==> es[i] in g.edges
    ensures Joined(g, p, LEFT, es) == Joined(g, Swap(p), RIGHT, es)
  {
    hide NodePasses;
    if es != [] {
      JoinedSwapped(g, p, es[1..]);
      assert EndsPass(g, p, LEFT, es[0]) <==> EndsPass(g, Swap(p), RIGHT, es[0]);
    }
  }

  /** A pattern read leftwards is the pattern with its ends swapped, read rightwards. */
  lemma LeftIsRightSwapped(g: Graph, p: Pattern)
    requires p.isEdge
    ensures Resolved(g, p, LEFT) == Resolved(g, Swap(p), RIGHT)
  {
    hide Scan, EndsPass;
    EdgeScan(g, p.edge, 0);
    JoinedSwapped(g, p, Scan(Objects(g, EDGE), p.edge, 0, g.nextEdge));
  }

  /** Every resolved id is a live object of the pattern's result kind. */
  lemma ResolvedIsLive(g: Graph, p: Pattern, direction: Direction)
    requires GraphOk(g) && Bound(p)
    ensures forall i :: 0 <= i < |Resolved(g, p, direction)| ==> Resolved(g, p, direction)[i] in Objects(g, p.kind)
  {
    hide Passes, EndsPass, Scan;
    var ids := Resolved(g, p, direction);
    if p.isEdge {
      var es := ResolvedIsRelation(g, p, direction);
      forall i | 0 <= i < |ids| ensures ids[i] in Objects(g, p.kind) {
        assert es[i] in es;
      }
    } else {
      ScanIsRelation(g.nodes, p.source, 0, g.nextNode);
      forall i | 0 <= i < |ids| ensures ids[i] in Objects(g, p.kind) {
        assert ids[i] in ids;
      }
    }
  }

  // ----- Patterns and filters in the graph's own terms -----

  /** The edge runs between the two nodes; a leftward pattern starts at its destination. */
  predicate Runs(e: EdgeRecord, direction: Direction, start: nat, end: nat) {
    match direction
    case RIGHT => e.source == start && e.destination == end
    case LEFT => e.source == end && e.destination == start
  }

  ghost predicate BothPass(g: Graph, p: Pattern, start: nat, end: nat) {
    NodePasses(g, p.source, start) && NodePasses(g, p.destination, end)
  }

  /**
   * What a pattern resolves to, told of edge records: by ascending edge id, for every live edge
   * that passes and runs from a node that passes the source filter to one that passes the
   * destination filter, that source, the edge, or that destination, as the binding asks.
   */
  lemma ResolvedMeans(g: Graph, p: Pattern, direction: Direction)
    returns (es: seq<nat>, starts: seq<nat>, ends: seq<nat>)
    requires GraphOk(g) && p.isEdge
    ensures Ascending(es) && |starts| == |ends| == |es|
    ensures forall e :: e in es <==>
              && e in g.edges && Passes(p.edge, e, g.edges[e].doc)
              && exists u, v :: Runs(g.edges[e], direction, u, v) && BothPass(g, p, u, v)
    ensures forall i :: 0 <= i < |es| ==>
              && es[i] in g.edges && Runs(g.edges[es[i]], direction, starts[i], ends[i])
              && BothPass(g, p, starts[i], ends[i])
    ensures Resolved(g, p, direction) == match p.binding case SOURCE => starts case LINK => es case DESTINATION => ends
  {
    hide Passes, Resolved;
    es := ResolvedIsRelation(g, p, direction);
    forall e ensures e in es <==>
        && e in g.edges && Passes(p.edge, e, g.edges[e].doc)
        && exists u, v :: Runs(g.edges[e], direction, u, v) && BothPass(g, p, u, v)
    {
      MatchedRuns(g, p, direction, e);
    }
    assert forall i :: 0 <= i < |es| ==> es[i] in es;
    starts := seq(|es|, i requires 0 <= i < |es| => StartOf(g.edges[es[i]], direction));
    ends := seq(|es|, i requires 0 <= i < |es| => EndOf(g.edges[es[i]], direction));
  }

  lemma MatchedRuns(g: Graph, p: Pattern, direction: Direction, e: nat)
    ensures Matched(g, p, direction, e) <==>
              && e in g.edges && Passes(p.edge, e, g.edges[e].doc)
              && exists u, v :: Runs(g.edges[e], direction, u, v) && BothPass(g, p, u, v)
  {
    hide Passes, NodePasses;
    if Matched(g, p, direction, e) {
      assert Runs(g.edges[e], direction, StartOf(g.edges[e], direction), EndOf(g.edges[e], direction));
    }
  }

  /** A filter with several criteria lets through what each of them lets through. */
  lemma FilterIsConjunction(f: Filter, id: nat, doc: seq<byte>)
    ensures Passes(f, id, doc) <==>
              && Passes(Filter(f.id, None, []), id, doc)
              && Passes(Filter(None, f.labelText, []), id, doc)
              && Passes(Filter(None, None, f.properties), id, doc)
    ensures Passes(Filter(None, None, []), id, doc)
    ensures Passes(Filter(f.id, None, []), id, doc) <==> f.id == None || f.id == Some(id)
  {
    hide HasLabel, HasProperty;
    assert DocumentElements(DocumentBytes([])) == [];
  }

  /** A document has a property when it has that very element, and no earlier one with the key. */
  lemma PropertyMeans(doc: seq<byte>, property: Element)
    ensures HasProperty(doc, property) <==>
              var es := DocumentElements(DocumentBytes(doc));
              exists i :: 0 <= i < |es| && es[i] == property && forall j :: 0 <= j < i ==> es[j].key != property.key
  {
    hide DocumentElements, DocumentBytes;
    var es := DocumentElements(DocumentBytes(doc));
    if FirstWithKey(es, property.key).Some? {
      var i := FirstIsFirst(es, property.key);
    }
  }

  /** The key of the label array. */
  lemma LabelsKey()
    ensures |LABELS| == |"_labels"| && forall i :: 0 <= i < |LABELS| ==> LABELS[i] as char == "_labels"[i]
  {
  }

  /** A label is compared with the whole of a stored text, neither more nor less. */
  lemma StoredTextIs(key: seq<byte>, stored: seq<byte>, text: seq<byte>)
    requires FindZero(key) == |key| && BsonWriter.Storable(BsonWriter.Text(UTF8, stored))
    ensures var e := Element(UTF8, key, BsonWriter.ValueBytes(BsonWriter.Text(UTF8, stored)));
            Readable(e) && (IsText(e, text) <==> stored == text)
  {
    hide LoadU32, BsonWriter.StringBytes, Readable, FindZero;
    var value := BsonWriter.StringBytes(stored);
    BsonWriter.StringBytesParts(stored, []);
    assert value + [] == value;
    TextReadable(key, value);
    assert value[4..|value| - 1] == stored;
  }

  lemma TextReadable(key: seq<byte>, value: seq<byte>)
    requires FindZero(key) == |key| && 5 <= |value| && LoadU32(value) == |value| - 4 <= INT32_MAX
    ensures Readable(Element(UTF8, key, value))
  {
    hide LoadU32;
  }
}
