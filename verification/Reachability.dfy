/** Bounded reachability: a breadth-first search over the flat edge array, two frontiers at a time. */
module Reachability {
  import opened Bytes
  import opened PropertyGraph
  import opened Connectivity
  import opened GraphStore
  import opened PagedObjectFile

  function TailOf(e: CooEdge, reverse: bool): nat { if reverse then e.destination else e.source }

  function HeadOf(e: CooEdge, reverse: bool): nat { if reverse then e.source else e.destination }

  /** A record that is not a tombstone leads from one vertex to the other. */
  predicate Leads(e: CooEdge, reverse: bool, u: nat, v: nat) {
    !IsDeleted(e) && TailOf(e, reverse) == u && HeadOf(e, reverse) == v
  }

  predicate Joins(coo: seq<CooEdge>, reverse: bool, u: nat, v: nat) {
    exists i :: 0 <= i < |coo| && Leads(coo[i], reverse, u, v)
  }

  predicate IsWalk(coo: seq<CooEdge>, reverse: bool, vs: seq<nat>) {
    vs != [] && forall i, j :: 0 <= i < |vs| && j == i + 1 && j < |vs| ==> Joins(coo, reverse, vs[i], vs[j])
  }

  predicate IsWalkFrom(coo: seq<CooEdge>, reverse: bool, u: nat, v: nat, vs: seq<nat>) {
    IsWalk(coo, reverse, vs) && vs[0] == u && vs[|vs| - 1] == v
  }

  /** Some walk of exactly `hops` edges joins the vertices. */
  ghost predicate Reaches(coo: seq<CooEdge>, reverse: bool, u: nat, v: nat, hops: nat) {
    exists vs :: |vs| == hops + 1 && IsWalkFrom(coo, reverse, u, v, vs)
  }

  ghost predicate ReachesSome(coo: seq<CooEdge>, reverse: bool, u: nat, hops: nat) {
    exists v: nat :: Reaches(coo, reverse, u, v, hops)
  }

  ghost predicate ReachesWithin(coo: seq<CooEdge>, reverse: bool, u: nat, v: nat, maxHops: nat) {
    exists hops: nat :: 1 <= hops <= maxHops && Reaches(coo, reverse, u, v, hops)
  }

  /** Some nonempty walk joins the vertices. */
  ghost predicate Connected(coo: seq<CooEdge>, reverse: bool, u: nat, v: nat) {
    exists hops: nat :: 1 <= hops && Reaches(coo, reverse, u, v, hops)
  }

  /** The endpoints of the records that are not tombstones are vertices. */
  predicate InRange(coo: seq<CooEdge>, vertexCount: nat) {
    forall i :: 0 <= i < |coo| && !IsDeleted(coo[i]) ==> coo[i].source < vertexCount && coo[i].destination < vertexCount
  }

  // ----- Walks -----

  lemma ReachesZero(coo: seq<CooEdge>, reverse: bool, u: nat, v: nat)
    ensures Reaches(coo, reverse, u, v, 0) <==> u == v
  {
    if u == v {
      assert IsWalkFrom(coo, reverse, u, v, [u]);
    }
  }

  /** A walk is a shorter walk and one more edge. */
  lemma ReachesStep(coo: seq<CooEdge>, reverse: bool, u: nat, v: nat, hops: nat)
    ensures Reaches(coo, reverse, u, v, hops + 1) <==>
            exists w: nat :: Reaches(coo, reverse, u, w, hops) && Joins(coo, reverse, w, v)
  {
    if Reaches(coo, reverse, u, v, hops + 1) {
      var vs :| |vs| == hops + 2 && IsWalkFrom(coo, reverse, u, v, vs);
      assert IsWalkFrom(coo, reverse, u, vs[hops], vs[..hops + 1]);
      assert Joins(coo, reverse, vs[hops], vs[hops + 1]);
    }
    if w: nat :| Reaches(coo, reverse, u, w, hops) && Joins(coo, reverse, w, v) {
      var vs :| |vs| == hops + 1 && IsWalkFrom(coo, reverse, u, w, vs);
      assert IsWalkFrom(coo, reverse, u, v, vs + [v]);
    }
  }

  /** Where no walk of one length goes, no longer walk goes. */
  lemma {:induction false} NoLongerWalk(coo: seq<CooEdge>, reverse: bool, u: nat, v: nat, hops: nat, longer: nat)
    requires hops <= longer && forall w: nat :: !Reaches(coo, reverse, u, w, hops)
    ensures !Reaches(coo, reverse, u, v, longer)
    decreases longer
  {
    hide Reaches;
    if hops < longer {
      var shorter := longer - 1;
      ReachesStep(coo, reverse, u, v, shorter);
      if w: nat :| Reaches(coo, reverse, u, w, shorter) {
        NoLongerWalk(coo, reverse, u, w, hops, shorter);
      }
    }
  }

  // ----- The search -----

  /** The frontier marks exactly the vertices that walks of this length reach. */
  ghost predicate Marks(frontier: array<byte>, coo: seq<CooEdge>, reverse: bool, source: nat, hops: nat)
    reads frontier
  {
    forall v: nat :: v < frontier.Length ==> (frontier[v] != 0 <==> Reaches(coo, reverse, source, v, hops))
  }

  /** Some of the first `n` records lead to the vertex from a marked one. */
  ghost predicate Fed(frontier: array<byte>, coo: seq<CooEdge>, reverse: bool, n: nat, v: nat)
    reads frontier
    requires n <= |coo|
  {
    exists i :: 0 <= i < n && Leads(coo[i], reverse, TailOf(coo[i], reverse), v)
                && TailOf(coo[i], reverse) < frontier.Length && frontier[TailOf(coo[i], reverse)] != 0
  }

  method ClearAll(a: array<byte>)
    modifies a
    ensures forall v :: 0 <= v < a.Length ==> a[v] == 0
  {
    forall v | 0 <= v < a.Length {
      a[v] := 0;
    }
  }

  /** One hop: the inner loop over the edges. */
  method Expand(coo: seq<CooEdge>, reverse: bool, frontier: array<byte>, next: array<byte>) returns (any: bool)
    requires frontier != next && frontier.Length == next.Length && InRange(coo, next.Length)
    modifies next
    ensures forall v: nat :: v < next.Length ==> (next[v] != 0 <==> Fed(frontier, coo, reverse, |coo|, v))
    ensures any <==> exists v: nat :: v < next.Length && next[v] != 0
  {
    ClearAll(next);
    any := false;
    for e := 0 to |coo|
      invariant forall v: nat :: v < next.Length ==> (next[v] != 0 <==> Fed(frontier, coo, reverse, e, v))
      invariant any <==> exists v: nat :: v < next.Length && next[v] != 0
    {
      var edge := coo[e];
      if !IsDeleted(edge) {
        var from, to := TailOf(edge, reverse), HeadOf(edge, reverse);
        if frontier[from] != 0 {
          next[to] := 1;
          any := true;
        }
      }
    }
  }

  /** Being fed from the marked vertices is being one hop further. */
  lemma FedIsReached(frontier: array<byte>, coo: seq<CooEdge>, reverse: bool, source: nat, hops: nat, v: nat)
    requires Marks(frontier, coo, reverse, source, hops) && InRange(coo, frontier.Length)
    ensures Fed(frontier, coo, reverse, |coo|, v) <==> Reaches(coo, reverse, source, v, hops + 1)
  {
    hide Reaches;
    ReachesStep(coo, reverse, source, v, hops);
    if w: nat :| Reaches(coo, reverse, source, w, hops) && Joins(coo, reverse, w, v) {
      var i :| 0 <= i < |coo| && Leads(coo[i], reverse, w, v);
      assert frontier[w] != 0;
    }
    if Fed(frontier, coo, reverse, |coo|, v) {
      var i :| 0 <= i < |coo| && Leads(coo[i], reverse, TailOf(coo[i], reverse), v)
               && TailOf(coo[i], reverse) < frontier.Length && frontier[TailOf(coo[i], reverse)] != 0;
      assert Joins(coo, reverse, TailOf(coo[i], reverse), v);
    }
  }

  /** Every walk of at least one edge ends at a vertex. */
  lemma ReachedInRange(coo: seq<CooEdge>, reverse: bool, source: nat, v: nat, hops: nat, vertexCount: nat)
    requires InRange(coo, vertexCount) && 1 <= hops && Reaches(coo, reverse, source, v, hops)
    ensures v < vertexCount
  {
    hide Reaches;
    ReachesStep(coo, reverse, source, v, hops - 1);
  }

  /** One round of the search: the next frontier marks one hop further. */
  method Advance(coo: seq<CooEdge>, reverse: bool, frontier: array<byte>, next: array<byte>, ghost source: nat,
                 ghost hops: nat)
    returns (any: bool)
    requires frontier != next && frontier.Length == next.Length && InRange(coo, next.Length)
    requires Marks(frontier, coo, reverse, source, hops)
    modifies next
    ensures Marks(next, coo, reverse, source, hops + 1)
    ensures any <==> ReachesSome(coo, reverse, source, hops + 1)
  {
    hide Reaches;
    any := Expand(coo, reverse, frontier, next);
    forall v: nat ensures Fed(frontier, coo, reverse, |coo|, v) <==> Reaches(coo, reverse, source, v, hops + 1) {
      FedIsReached(frontier, coo, reverse, source, hops, v);
    }
    ghost var further := hops + 1;
    if v: nat :| Reaches(coo, reverse, source, v, further) {
      ReachedInRange(coo, reverse, source, v, further, next.Length);
    }
  }

  /**
   * operator_is_reachable_flat_coo_bounded: exactly whether some walk of one to `maxHops` edges,
   * none of them deleted, joins source and destination.
   */
  method IsReachable(coo: seq<CooEdge>, source: nat, destination: nat, maxHops: nat, reverse: bool,
                     frontier0: array<byte>, next0: array<byte>) returns (r: bool)
    requires frontier0 != next0 && frontier0.Length == next0.Length && InRange(coo, frontier0.Length)
    modifies frontier0, next0
    ensures r <==> source < frontier0.Length && destination < frontier0.Length
                   && ReachesWithin(coo, reverse, source, destination, maxHops)
  {
    hide Reaches;
    var frontier, next := frontier0, next0;
    if maxHops == 0 || source >= frontier.Length || destination >= frontier.Length {
      return false;
    }
    ClearAll(frontier);
    ClearAll(next);
    frontier[source] := 1;
    forall v: nat ensures Reaches(coo, reverse, source, v, 0) <==> source == v {
      ReachesZero(coo, reverse, source, v);
    }
    for hop := 0 to maxHops
      invariant {frontier, next} == {frontier0, next0} && frontier != next
      invariant Marks(frontier, coo, reverse, source, hop)
      invariant !ReachesWithin(coo, reverse, source, destination, hop)
    {
      var any := Advance(coo, reverse, frontier, next, source, hop);
      if next[destination] != 0 {
        return true;
      }
      if !any {
        forall longer: nat | hop < longer ensures !Reaches(coo, reverse, source, destination, longer) {
          NoLongerWalk(coo, reverse, source, destination, hop + 1, longer);
        }
        return false;
      }
      frontier, next := next, frontier;
    }
    return false;
  }

  // ----- Long enough bounds are no bounds -----

  /** More entries than values: some value repeats. */
  lemma {:induction false} Pigeonhole(s: seq<nat>, n: nat) returns (i: nat, j: nat)
    requires n < |s| && forall k :: 0 <= k < |s| ==> s[k] < n
    ensures i < j < |s| && s[i] == s[j]
    decreases n
  {
    var last := |s| - 1;
    if k :| 0 <= k < last && s[k] == s[last] {
      return k, last;
    }
    // The last value occurs once: put the greatest value in its place and leave both out.
    var t := seq(last, k requires 0 <= k < last => if s[k] == n - 1 then s[last] else s[k]);
    forall k | 0 <= k < |t| ensures t[k] < n - 1 {
    }
    i, j := Pigeonhole(t, n - 1);
  }

  lemma WalkVertices(coo: seq<CooEdge>, reverse: bool, vs: seq<nat>, vertexCount: nat)
    requires InRange(coo, vertexCount) && IsWalk(coo, reverse, vs)
    ensures forall i :: 1 <= i < |vs| ==> vs[i] < vertexCount
  {
    forall i | 1 <= i < |vs| ensures vs[i] < vertexCount {
      assert Joins(coo, reverse, vs[i - 1], vs[i]);
    }
  }

  /** A walk with the part between two visits of a vertex cut out. */
  lemma ShortcutWalk(coo: seq<CooEdge>, reverse: bool, u: nat, v: nat, vs: seq<nat>, i: nat, j: nat)
    requires IsWalkFrom(coo, reverse, u, v, vs) && i < j < |vs| && vs[i] == vs[j]
    ensures IsWalkFrom(coo, reverse, u, v, vs[..i] + vs[j..])
  {
    var short := vs[..i] + vs[j..];
    forall a, b | 0 <= a < |short| && b == a + 1 && b < |short| ensures Joins(coo, reverse, short[a], short[b]) {
      if b < i {
        assert Joins(coo, reverse, vs[a], vs[b]);
      } else if b == i {
        assert Joins(coo, reverse, vs[i - 1], vs[i]);
      } else {
        assert Joins(coo, reverse, vs[a - i + j], vs[b - i + j]);
      }
    }
  }

  lemma {:induction false} WalkShortens(coo: seq<CooEdge>, reverse: bool, u: nat, v: nat, vs: seq<nat>,
                                        vertexCount: nat)
    requires InRange(coo, vertexCount) && IsWalkFrom(coo, reverse, u, v, vs) && 1 < |vs|
    ensures ReachesWithin(coo, reverse, u, v, vertexCount)
    decreases |vs|
  {
    var hops := |vs| - 1;
    if hops <= vertexCount {
      assert Reaches(coo, reverse, u, v, hops);
    } else {
      WalkVertices(coo, reverse, vs, vertexCount);
      var i, j := Pigeonhole(vs[1..], vertexCount);
      ShortcutWalk(coo, reverse, u, v, vs, i + 1, j + 1);
      WalkShortens(coo, reverse, u, v, vs[..i + 1] + vs[j + 1..], vertexCount);
    }
  }

  /** A bound of at least the number of vertices excludes no connected pair. */
  lemma EnoughHops(coo: seq<CooEdge>, reverse: bool, u: nat, v: nat, vertexCount: nat, maxHops: nat)
    requires InRange(coo, vertexCount) && vertexCount <= maxHops
    ensures ReachesWithin(coo, reverse, u, v, maxHops) <==> Connected(coo, reverse, u, v)
  {
    if Connected(coo, reverse, u, v) {
      var hops: nat :| 1 <= hops && Reaches(coo, reverse, u, v, hops);
      var vs :| |vs| == hops + 1 && IsWalkFrom(coo, reverse, u, v, vs);
      WalkShortens(coo, reverse, u, v, vs, vertexCount);
    }
  }

  // ----- Reversal -----

  function Reversed(vs: seq<nat>): seq<nat> { seq(|vs|, i requires 0 <= i < |vs| => vs[|vs| - 1 - i]) }

  lemma WalkReversed(coo: seq<CooEdge>, reverse: bool, u: nat, v: nat, vs: seq<nat>)
    requires IsWalkFrom(coo, reverse, u, v, vs)
    ensures IsWalkFrom(coo, !reverse, v, u, Reversed(vs))
  {
    var rs := Reversed(vs);
    forall i, j | 0 <= i < |rs| && j == i + 1 && j < |rs| ensures Joins(coo, !reverse, rs[i], rs[j]) {
      assert Joins(coo, reverse, vs[|vs| - 1 - j], vs[|vs| - 1 - i]);
      var k :| 0 <= k < |coo| && Leads(coo[k], reverse, rs[j], rs[i]);
      assert Leads(coo[k], !reverse, rs[i], rs[j]);
    }
  }

  /** Searching backwards from the destination is searching forwards from the source. */
  lemma ReversedReaches(coo: seq<CooEdge>, reverse: bool, u: nat, v: nat, hops: nat)
    ensures Reaches(coo, reverse, u, v, hops) <==> Reaches(coo, !reverse, v, u, hops)
  {
    if Reaches(coo, reverse, u, v, hops) {
      var vs :| |vs| == hops + 1 && IsWalkFrom(coo, reverse, u, v, vs);
      WalkReversed(coo, reverse, u, v, vs);
    }
    if Reaches(coo, !reverse, v, u, hops) {
      var vs :| |vs| == hops + 1 && IsWalkFrom(coo, !reverse, v, u, vs);
      WalkReversed(coo, !reverse, v, u, vs);
    }
  }

  lemma ReversedReachesWithin(coo: seq<CooEdge>, reverse: bool, u: nat, v: nat, maxHops: nat)
    ensures ReachesWithin(coo, reverse, u, v, maxHops) <==> ReachesWithin(coo, !reverse, v, u, maxHops)
  {
    hide Reaches;
    if hops: nat :| 1 <= hops <= maxHops && Reaches(coo, reverse, u, v, hops) {
      ReversedReaches(coo, reverse, u, v, hops);
    }
    var backwards := !reverse;
    if hops: nat :| 1 <= hops <= maxHops && Reaches(coo, backwards, v, u, hops) {
      ReversedReaches(coo, reverse, u, v, hops);
    }
  }

  // ----- On a graph store -----

  /** A live edge of the graph leads from one node to the other. */
  predicate Adjacent(g: Graph, u: nat, v: nat) {
    exists e :: e in g.edges && g.edges[e].source == u && g.edges[e].destination == v
  }

  /** A sequence of nodes, each joined to the next by a live edge of the graph. */
  predicate IsPath(g: Graph, vs: seq<nat>) {
    vs != [] && forall i, j :: 0 <= i < |vs| && j == i + 1 && j < |vs| ==> Adjacent(g, vs[i], vs[j])
  }

  ghost predicate PathWithin(g: Graph, u: nat, v: nat, maxHops: nat) {
    exists vs :: 1 < |vs| <= maxHops + 1 && IsPath(g, vs) && vs[0] == u && vs[|vs| - 1] == v
  }

  /** The live records of a store are the live edges of its graph. */
  lemma JoinsIsAdjacent(store: Store, u: nat, v: nat)
    requires store.Valid()
    ensures Joins(store.coo[..store.edgeCount], false, u, v) <==> Adjacent(store.Graph(), u, v)
  {
    hide ObjectFile.Valid, ObjectFile.Contents;
    var coo, g := store.coo[..store.edgeCount], store.Graph();
    if Joins(coo, false, u, v) {
      var i :| 0 <= i < |coo| && Leads(coo[i], false, u, v);
      assert store.coo[i] == coo[i];
      assert i in g.edges && g.edges[i].source == u && g.edges[i].destination == v;
    }
    if e :| e in g.edges && g.edges[e].source == u && g.edges[e].destination == v {
      assert coo[e] == store.coo[e];
      assert Leads(coo[e], false, u, v);
    }
  }

  lemma StoreInRange(store: Store)
    requires store.Valid()
    ensures store.edgeCount <= |store.coo| && InRange(store.coo[..store.edgeCount], store.vertexIdCapacity)
    ensures store.vertexIdCapacity == store.Graph().nextNode
  {
    hide ObjectFile.Valid, ObjectFile.Contents;
    forall i | 0 <= i < store.edgeCount && !IsDeleted(store.coo[i])
      ensures store.coo[i].source < store.vertexIdCapacity && store.coo[i].destination < store.vertexIdCapacity
    {
      assert i in store.edges.Contents();
    }
  }

  lemma WithinIsPath(store: Store, u: nat, v: nat, maxHops: nat)
    requires store.Valid()
    ensures ReachesWithin(store.coo[..store.edgeCount], false, u, v, maxHops) <==>
              PathWithin(store.Graph(), u, v, maxHops)
  {
    hide Store.Valid, Store.Graph, Joins, Adjacent, InRange;
    StoreInRange(store);
    var coo, g := store.coo[..store.edgeCount], store.Graph();
    forall a, b ensures Joins(coo, false, a, b) <==> Adjacent(g, a, b) {
      JoinsIsAdjacent(store, a, b);
    }
    if ReachesWithin(coo, false, u, v, maxHops) {
      var hops: nat :| 1 <= hops <= maxHops && Reaches(coo, false, u, v, hops);
      var vs :| |vs| == hops + 1 && IsWalkFrom(coo, false, u, v, vs);
      assert IsPath(g, vs);
    }
    if PathWithin(g, u, v, maxHops) {
      var vs :| 1 < |vs| <= maxHops + 1 && IsPath(g, vs) && vs[0] == u && vs[|vs| - 1] == v;
      assert IsWalkFrom(coo, false, u, v, vs);
      assert Reaches(coo, false, u, v, |vs| - 1);
    }
  }

  const FRONTIER_COUNT: nat := 2

  /** linklet_advise: the endpoints must be ids the store has handed out, and the frontiers a size it can allocate. */
  predicate Advised(nextNode: nat, source: nat, destination: nat) {
    source < nextNode && destination < nextNode && nextNode <= SIZE_MAX / FRONTIER_COUNT
  }

  /** The advisor's checks, then execute_reachability: paths of the graph, read in the direction asked. */
  method ExecuteReachability(store: Store, source: nat, destination: nat, maxHops: nat, reverse: bool, ghost g: Graph)
    returns (ok: bool, r: bool)
    requires store.Represents(g)
    ensures ok <==> Advised(g.nextNode, source, destination)
    ensures ok ==> (r <==> if reverse then PathWithin(g, destination, source, maxHops)
                           else PathWithin(g, source, destination, maxHops))
  {
    hide Store.Valid, Store.Graph, InRange, ReachesWithin, PathWithin;
    StoreInRange(store);
    var capacity := store.vertexIdCapacity;
    if capacity == 0 || source >= capacity || destination >= capacity || capacity > SIZE_MAX / FRONTIER_COUNT {
      return false, false;
    }
    var coo := store.coo[..store.edgeCount];
    var frontier := new byte[capacity];
    var next := new byte[capacity];
    r := IsReachable(coo, source, destination, maxHops, reverse, frontier, next);
    ReversedReachesWithin(coo, reverse, source, destination, maxHops);
    WithinIsPath(store, source, destination, maxHops);
    WithinIsPath(store, destination, source, maxHops);
    ok := true;
  }

  /** A deleted node lies on no path. */
  lemma DeadNodeOnNoPath(g: Graph, node: nat, other: nat, maxHops: nat)
    requires GraphOk(g) && node !in g.nodes
    ensures !PathWithin(g, node, other, maxHops) && !PathWithin(g, other, node, maxHops)
  {
    forall vs: seq<nat> | 1 < |vs| && IsPath(g, vs) ensures vs[0] in g.nodes && vs[|vs| - 1] in g.nodes {
      assert Adjacent(g, vs[0], vs[1]) && Adjacent(g, vs[|vs| - 2], vs[|vs| - 1]);
    }
  }
}
