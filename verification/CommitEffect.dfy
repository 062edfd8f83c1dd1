/**
 * What a commit does, told without the log: the calls take effect one after the other, each on the
 * objects it matched in the graph before the transaction.
 */
module CommitEffect {
  import opened Bytes
  import opened PropertyGraph
  import opened RedoLog
  import opened Matching
  import opened Execution
  import opened Transaction
  import opened SingleCall
  import Recovery
  import BsonReader

  predicate AllBound(calls: seq<Call>) { forall i :: 0 <= i < |calls| ==> BoundCall(calls[i]) }

  // ----- The log keeps the order of the calls -----

  /** How many of the calls insert an object of the kind. */
  function Inserts(calls: seq<Call>, kind: Kind): nat {
    if calls == [] then 0
    else
      var last := calls[|calls| - 1];
      Inserts(calls[..|calls| - 1], kind) + if last.Insert? && last.kind == kind then 1 else 0
  }

  /** An id counter after some inserts. */
  function BaseAfter(base: u64, inserts: nat): u64 { (base + inserts) % 0x1_0000_0000_0000_0000 }

  lemma {:induction false} InsertsCons(c: Call, calls: seq<Call>, kind: Kind)
    ensures Inserts([c] + calls, kind) == (if c.Insert? && c.kind == kind then 1 else 0) + Inserts(calls, kind)
    decreases |calls|
  {
    var all := [c] + calls;
    if calls == [] {
      assert all == [c] && all[..0] == [];
    } else {
      InsertsCons(c, calls[..|calls| - 1], kind);
      assert all[..|all| - 1] == [c] + calls[..|calls| - 1];
    }
  }

  /** One more insert advances the counter once more. */
  lemma BaseAfterStep(base: u64, inserts: nat)
    ensures BaseAfter(base, 0) == base
    ensures BaseAfter(Advance(base), inserts) == BaseAfter(base, 1 + inserts)
  {
  }

  /** One more call: its operations follow those of the calls before it, its ids theirs. */
  lemma {:induction false} FrameFromSnoc(g: Graph, calls: seq<Call>, c: Call, nodeBase: u64, edgeBase: u64)
    requires InDomain(g) && AllBound(calls) && BoundCall(c)
    ensures AllBound(calls + [c])
    ensures FrameFrom(g, calls + [c], nodeBase, edgeBase) ==
            FrameFrom(g, calls, nodeBase, edgeBase)
            + CallOperations(g, c, BaseAfter(nodeBase, Inserts(calls, NODE)), BaseAfter(edgeBase, Inserts(calls, EDGE)))
    decreases |calls|
  {
    hide CallOperations, Inserts, BaseAfter, GraphOk;
    var all := calls + [c];
    NoInserts();
    BaseAfterStep(nodeBase, 0);
    BaseAfterStep(edgeBase, 0);
    if calls == [] {
      assert all == [c] && [c][1..] == [];
    } else {
      var first, rest := calls[0], calls[1..];
      var nodes, edges := NodeBaseAfter(first, nodeBase), EdgeBaseAfter(first, edgeBase);
      assert calls == [first] + rest && all[1..] == rest + [c];
      InsertsCons(first, rest, NODE);
      InsertsCons(first, rest, EDGE);
      BaseAfterStep(nodeBase, Inserts(rest, NODE));
      BaseAfterStep(edgeBase, Inserts(rest, EDGE));
      FrameFromSnoc(g, rest, c, nodes, edges);
      ConcatAssoc(CallOperations(g, first, nodeBase, edgeBase), FrameFrom(g, rest, nodes, edges),
        CallOperations(g, c, BaseAfter(nodes, Inserts(rest, NODE)), BaseAfter(edges, Inserts(rest, EDGE))));
    }
  }

  lemma NoInserts()
    ensures Inserts([], NODE) == 0 && Inserts([], EDGE) == 0
  {
  }

  /** The frame of more calls begins with the frame of fewer. */
  lemma FrameGrows(g: Graph, calls: seq<Call>, c: Call)
    requires InDomain(g) && AllBound(calls) && BoundCall(c)
    ensures AllBound(calls + [c])
    ensures Frame(g, calls) <= Frame(g, calls + [c])
    ensures Frame(g, calls + [c])[|Frame(g, calls)|..] ==
            CallOperations(g, c,
              BaseAfter(g.nextNode, Inserts(calls, NODE)), BaseAfter(g.nextEdge, Inserts(calls, EDGE)))
  {
    hide CallOperations, FrameFrom, GraphOk;
    FrameFromSnoc(g, calls, c, g.nextNode, g.nextEdge);
  }

  // ----- The effect of calls on a graph -----

  /** One match of a call changed; an object that is gone by then is skipped. */
  function ChangeMatch(h: Graph, c: Call, id: nat): Applied
    requires !c.Insert?
  {
    if id !in Objects(h, c.pattern.kind) then Applied(h, None)
    else if c.Delete? then
      Attempt(h, if c.pattern.kind == NODE then DeleteNode(h, id, c.detach) else DeleteEdge(h, id))
    else Attempt(h, UpdateOne(h, c.pattern.kind, id, BsonReader.DocumentBytes(c.payload)))
  }

  function ChangeFirst(h: Graph, c: Call, ids: seq<nat>, n: nat): Applied
    requires !c.Insert? && n <= |ids|
  {
    if n == 0 then Applied(h, None)
    else
      var r := ChangeFirst(h, c, ids, n - 1);
      if r.Ok() then ChangeMatch(r.graph, c, ids[n - 1]) else r
  }

  /** A call whose matches are those of graph `g` takes effect on graph `h`. */
  ghost function CallEffect(g: Graph, h: Graph, c: Call): Applied {
    if c.Insert? then
      var doc := BsonReader.DocumentBytes(c.payload);
      Attempt(h, if c.kind == NODE then InsertNode(h, doc) else InsertEdge(h, c.source, c.destination, doc))
    else
      var ids := Resolved(g, c.pattern, c.direction);
      ChangeFirst(h, c, ids, |ids|)
  }

  /** The calls take effect in order, up to the first that fails. */
  ghost function CallsEffect(g: Graph, calls: seq<Call>): Applied {
    if calls == [] then Applied(g, None)
    else
      var r := CallsEffect(g, calls[..|calls| - 1]);
      if r.Ok() then CallEffect(g, r.graph, calls[|calls| - 1]) else r
  }

  // ----- Commit has that effect -----

  lemma {:induction false} ApplyBehind(g: Graph, ops: seq<Operation>, more: seq<Operation>, n: nat)
    requires n <= |more|
    ensures ApplyFirst(g, ops + more, |ops| + n) ==
            if ApplyAll(g, ops).Ok() then ApplyFirst(ApplyAll(g, ops).graph, more, n) else ApplyAll(g, ops)
  {
    hide ApplyOperation;
    var all := ops + more;
    if n == 0 {
      Recovery.ApplyPrefix(g, all, |ops|, |ops|);
      assert all[..|ops|] == ops;
    } else {
      ApplyBehind(g, ops, more, n - 1);
      assert all[|ops| + n - 1] == more[n - 1];
    }
  }

  /** Frames applied one behind the other. */
  lemma ApplyConcat(g: Graph, ops: seq<Operation>, more: seq<Operation>)
    ensures ApplyAll(g, ops + more) ==
            if ApplyAll(g, ops).Ok() then ApplyAll(ApplyAll(g, ops).graph, more) else ApplyAll(g, ops)
  {
    hide ApplyFirst;
    ApplyBehind(g, ops, more, |more|);
  }

  /** The logged operation of a match does to a graph what the match does, and moves no counter. */
  lemma MatchLogged(h: Graph, c: Call, id: u64)
    requires !c.Insert?
    ensures ApplyOperation(h, MatchOperation(c, id)) == ChangeMatch(h, c, id)
    ensures ChangeMatch(h, c, id).graph.nextNode == h.nextNode && ChangeMatch(h, c, id).graph.nextEdge == h.nextEdge
  {
    hide Storable, BsonReader.DocumentBytes;
  }

  lemma {:induction false} MatchesLogged(h: Graph, c: Call, ids: seq<nat>, n: nat)
    requires !c.Insert? && n <= |ids| && forall i :: 0 <= i < |ids| ==> ids[i] <= UINT64_MAX
    ensures var r := ApplyFirst(h, MatchOperations(c, ids), n);
            && r == ChangeFirst(h, c, ids, n)
            && r.graph.nextNode == h.nextNode && r.graph.nextEdge == h.nextEdge
  {
    hide ApplyOperation, ChangeMatch, MatchOperation;
    if n > 0 {
      MatchesLogged(h, c, ids, n - 1);
      MatchLogged(ChangeFirst(h, c, ids, n - 1).graph, c, ids[n - 1]);
    }
  }

  /** The logged operation of an insert whose predicted id is the next one. */
  lemma InsertLogged(g: Graph, h: Graph, c: Call, id: u64)
    requires c.Insert? && GraphOk(h) && id == if c.kind == NODE then h.nextNode else h.nextEdge
    ensures ApplyAll(h, [InsertOperation(c, id)]) == CallEffect(g, h, c)
    ensures CallEffect(g, h, c).Ok() ==>
              && CallEffect(g, h, c).graph.nextNode == h.nextNode + (if c.kind == NODE then 1 else 0)
              && CallEffect(g, h, c).graph.nextEdge == h.nextEdge + (if c.kind == EDGE then 1 else 0)
  {
    hide Storable, BsonReader.DocumentBytes;
    var ops := [InsertOperation(c, id)];
    assert ApplyFirst(h, ops, 0) == Applied(h, None);
    assert ApplyFirst(h, ops, 1) == ApplyOperation(h, ops[0]);
  }

  /** What a call contributes to the frame has the effect of the call. */
  lemma CallLogged(g: Graph, h: Graph, c: Call, nodeBase: u64, edgeBase: u64)
    requires InDomain(g) && BoundCall(c) && GraphOk(h) && nodeBase == h.nextNode && edgeBase == h.nextEdge
    ensures ApplyAll(h, CallOperations(g, c, nodeBase, edgeBase)) == CallEffect(g, h, c)
    ensures CallEffect(g, h, c).Ok() ==>
              && CallEffect(g, h, c).graph.nextNode == h.nextNode + Inserts([c], NODE)
              && CallEffect(g, h, c).graph.nextEdge == h.nextEdge + Inserts([c], EDGE)
  {
    hide ApplyFirst, ChangeFirst, GraphOk, Resolved, MatchOperations;
    assert [c][..0] == [];
    NoInserts();
    if c.Insert? {
      InsertLogged(g, h, c, if c.kind == NODE then nodeBase else edgeBase);
    } else {
      var ids := Resolved(g, c.pattern, c.direction);
      FrameOfOne(g, c);
      FrameOfOneCall(g, c);
      MatchesIgnoreBases(g, c, nodeBase, edgeBase);
      MatchesLogged(h, c, ids, |ids|);
    }
  }

  lemma InsertsSnoc(calls: seq<Call>, c: Call, kind: Kind)
    ensures Inserts(calls + [c], kind) == Inserts(calls, kind) + Inserts([c], kind) <= Inserts(calls, kind) + 1
  {
    assert (calls + [c])[..|calls|] == calls && [c][..0] == [];
  }

  lemma {:induction false} InsertsBounded(calls: seq<Call>, kind: Kind)
    ensures Inserts(calls, kind) <= |calls|
    decreases |calls|
  {
    if calls != [] {
      InsertsBounded(calls[..|calls| - 1], kind);
    }
  }

  /** The next call of a transaction: the step of the theorem below. */
  lemma EffectStep(g: Graph, calls: seq<Call>, c: Call)
    requires InDomain(g) && AllBound(calls) && BoundCall(c)
    requires g.nextNode + |calls| <= UINT64_MAX && g.nextEdge + |calls| <= UINT64_MAX
    requires ApplyAll(g, Frame(g, calls)) == CallsEffect(g, calls)
    requires CallsEffect(g, calls).Ok() ==> CountersAt(g, calls, CallsEffect(g, calls).graph)
    ensures AllBound(calls + [c]) && ApplyAll(g, Frame(g, calls + [c])) == CallsEffect(g, calls + [c])
    ensures CallsEffect(g, calls + [c]).Ok() ==> CountersAt(g, calls + [c], CallsEffect(g, calls + [c]).graph)
  {
    hide ApplyFirst, FrameFrom, CallOperations, CallEffect, Inserts, GraphOk;
    var nodes, edges := BaseAfter(g.nextNode, Inserts(calls, NODE)), BaseAfter(g.nextEdge, Inserts(calls, EDGE));
    FrameFromSnoc(g, calls, c, g.nextNode, g.nextEdge);
    ApplyConcat(g, Frame(g, calls), CallOperations(g, c, nodes, edges));
    assert (calls + [c])[..|calls|] == calls;
    InsertsBounded(calls, NODE);
    InsertsBounded(calls, EDGE);
    InsertsSnoc(calls, c, NODE);
    InsertsSnoc(calls, c, EDGE);
    if CallsEffect(g, calls).Ok() {
      FrameAfterOk(g, calls + [c]);
      CallLogged(g, CallsEffect(g, calls).graph, c, nodes, edges);
    }
  }

  /** After the calls the counters have moved by their inserts. */
  ghost predicate CountersAt(g: Graph, calls: seq<Call>, h: Graph) {
    && GraphOk(h)
    && h.nextNode == g.nextNode + Inserts(calls, NODE) && h.nextEdge == g.nextEdge + Inserts(calls, EDGE)
  }

  /** Whatever a frame does leaves a graph in order. */
  lemma FrameAfterOk(g: Graph, calls: seq<Call>)
    requires InDomain(g) && AllBound(calls)
    ensures GraphOk(ApplyAll(g, Frame(g, calls)).graph)
  {
    hide ApplyFirst, FrameFrom;
    Recovery.AfterEvolves(g, Frame(g, calls), |Frame(g, calls)|, |Frame(g, calls)|);
  }

  lemma {:induction false} EffectFrom(g: Graph, calls: seq<Call>)
    requires InDomain(g) && AllBound(calls)
    requires g.nextNode + |calls| <= UINT64_MAX && g.nextEdge + |calls| <= UINT64_MAX
    ensures ApplyAll(g, Frame(g, calls)) == CallsEffect(g, calls)
    ensures CallsEffect(g, calls).Ok() ==> CountersAt(g, calls, CallsEffect(g, calls).graph)
    decreases |calls|
  {
    if calls == [] {
      assert ApplyAll(g, []) == Applied(g, None);
    } else {
      hide CountersAt, ApplyFirst, FrameFrom, CallsEffect, GraphOk;
      var before, c := calls[..|calls| - 1], calls[|calls| - 1];
      assert calls == before + [c];
      EffectFrom(g, before);
      EffectStep(g, before, c);
    }
  }

  /**
   * Commit is its calls, first call first: the frame applies to the graph and the verdict of the
   * calls taking effect one after the other.
   */
  lemma CommitIsFold(g: Graph, calls: seq<Call>)
    requires InDomain(g) && AllBound(calls)
    requires g.nextNode + |calls| <= UINT64_MAX && g.nextEdge + |calls| <= UINT64_MAX
    ensures ApplyAll(g, Frame(g, calls)) == CallsEffect(g, calls)
  {
    EffectFrom(g, calls);
  }
}
