/** build_causal_order: Kahn's algorithm with a min-heap. The result is the
    lexicographically smallest topological order exactly when the arcs have no
    cycle; the branches that report a damaged structure cannot be taken. */
module CausalOrder {
  import opened Events
  import opened FiniteSets
  import opened Graphs
  import opened IndexHeap
  import opened CausalSpec
  import opened ContextOrder
  import opened ArcLists

  const FAILURE: int := -1

  // ---------- The state between two emissions ----------

  /** The counts agree with the arcs not yet removed, and the heap holds
      exactly the unplaced nodes without such arcs. */
  ghost predicate Draining(n: nat, src: seq<nat>, arcs: seq<GraphArc>, indegree: seq<nat>, removed: set<nat>,
                           placed: seq<nat>, pending: set<nat>, heap: seq<nat>)
  {
    |src| <= |arcs| && |indegree| == n
    && CountsInto(arcs, |src|, removed, indegree)
    && (forall v :: v in placed ==> v < n && indegree[v] == 0)
    && (forall v :: v in pending <==> 0 <= v < n && v !in placed && indegree[v] == 0)
    && HeapOrdered(heap) && multiset(heap) == multiset(pending)
  }

  /** The removed arcs are those of placed nodes, except the arcs of `current`
      below `top` whose turn has not come. */
  ghost predicate RemovedUpTo(src: seq<nat>, placed: seq<nat>, current: nat, top: nat, removed: set<nat>) {
    forall k :: k in removed <==> 0 <= k < |src| && src[k] in placed && (src[k] == current ==> k >= top)
  }

  lemma {:induction false} PendingSize(n: nat, src: seq<nat>, arcs: seq<GraphArc>, indegree: seq<nat>,
                                       removed: set<nat>,
                    placed: seq<nat>, pending: set<nat>, heap: seq<nat>)
    requires Draining(n, src, arcs, indegree, removed, placed, pending, heap)
    ensures |heap| == |pending|
    ensures forall v :: v in heap <==> v in pending
    ensures forall v :: 0 <= v < n && v !in pending ==> |heap| < n
  {
    assert |heap| == |multiset(heap)| == |multiset(pending)|;
    forall v
      ensures v in heap <==> v in pending
    {
      assert v in heap <==> v in multiset(heap);
    }
    forall v | 0 <= v < n && v !in pending
      ensures |heap| < n
    {
      assert pending <= Below(n) - {v};
      SubsetSize(pending, Below(n) - {v});
    }
  }

  /** With every placed node's arcs removed, pending means ready. */
  lemma {:induction false} PendingIffReady(n: nat, src: seq<nat>, arcs: seq<GraphArc>, indegree: seq<nat>,
                                           removed: set<nat>,
                        placed: seq<nat>, pending: set<nat>, heap: seq<nat>, v: nat)
    requires Draining(n, src, arcs, indegree, removed, placed, pending, heap)
    requires forall k :: k in removed <==> 0 <= k < |src| && src[k] in placed
    ensures v in pending <==> Ready(ArcPairs(src, arcs), n, placed, v)
  {
    var g := ArcPairs(src, arcs);
    if v < n && v !in placed {
      var into := Into(arcs, |src|, removed, v);
      if indegree[v] == 0 {
        forall u | (u, v) in g
          ensures u in placed
        {
          var k :| 0 <= k < |src| && (src[k], arcs[k].to) == (u, v);
          assert k !in into;
        }
      } else {
        var k :| k in into;
        assert (src[k], arcs[k].to) in g;
      }
    }
  }

  // ---------- The steps ----------

  /** Stores the arc of every model edge, up to the first one out of range. */
  method StoreEdgeArcs(edges: seq<ModelEdge>, arcs: array<GraphArc>, heads: array<nat>, indegree: array<nat>, n: nat)
    returns (ok: bool, arcCount: nat, ghost src: seq<nat>)
    requires |edges| <= arcs.Length <= SIZE_MAX
    requires heads.Length == indegree.Length == n && heads != indegree
    requires Stored([], arcs[..], heads[..], indegree[..])
    modifies arcs, heads, indegree
    ensures |src| == arcCount <= |edges|
    ensures Stored(src, arcs[..], heads[..], indegree[..])
    ensures ok <==> InRange(edges, n)
    ensures ok ==> ArcPairs(src, arcs[..]) == EdgeArcs(edges)
  {
    arcCount, src := 0, [];
    var index := 0;
    while index < |edges|
      invariant index <= |edges| && arcCount <= index && |src| == arcCount
      invariant Stored(src, arcs[..], heads[..], indegree[..])
      invariant InRange(edges[..index], n) && ArcPairs(src, arcs[..]) == EdgeArcs(edges[..index])
    {
      var edge := edges[index];
      assert edges[..index + 1] == edges[..index] + [edge];
      ok, arcCount, src := AddArc(arcs, arcs.Length, arcCount, heads, indegree, n, edge.from, edge.to, src);
      if !ok {
        assert edge in edges;
        return;
      }
      EdgeArcsAppend(edges[..index], edge);
      index := index + 1;
    }
    assert edges[..index] == edges;
    ok := true;
  }

  lemma {:induction false} NeighboursDiffer(nodes: seq<Node>, s: seq<nat>, index: nat)
    requires SortedNodes(nodes, |nodes|, s) && 1 <= index < |s|
    ensures s[index - 1] < |nodes| && s[index] < |nodes| && s[index - 1] != s[index]
  {
    assert s[index - 1] in s && s[index] in s && Before(nodes, s[index - 1], s[index]);
  }

  lemma {:induction false} NeighbourArcsNext(nodes: seq<Node>, s: seq<nat>, index: nat, start: set<(nat, nat)>,
                                             before: set<(nat, nat)>, after: set<(nat, nat)>)
    requires 1 <= index < |s| && before == start + NeighbourArcs(nodes, s, index)
    requires after == before + ArcBetween(nodes, s[index - 1], s[index])
    ensures after == start + NeighbourArcs(nodes, s, index + 1)
  {}

  /** Stores the arc between two neighbours if both are of one context, which
      `adds` says. */
  method StoreNeighbourArc(nodes: seq<Node>, byContext: seq<nat>, index: nat, arcs: array<GraphArc>, heads: array<nat>,
                           indegree: array<nat>, arcCount: nat, ghost src: seq<nat>, ghost start: set<(nat, nat)>)
    returns (ok: bool, adds: bool, newCount: nat, ghost newSrc: seq<nat>)
    requires SortedNodes(nodes, |nodes|, byContext) && 1 <= index < |byContext|
    requires |src| == arcCount < arcs.Length <= SIZE_MAX
    requires heads.Length == indegree.Length == |nodes| && heads != indegree
    requires Stored(src, arcs[..], heads[..], indegree[..])
    requires ArcPairs(src, arcs[..]) == start + NeighbourArcs(nodes, byContext, index)
    modifies arcs, heads, indegree
    ensures |newSrc| == newCount <= arcCount + 1 && ok && (!adds ==> newCount == arcCount)
    ensures Stored(newSrc, arcs[..], heads[..], indegree[..])
    ensures ArcPairs(newSrc, arcs[..]) == start + NeighbourArcs(nodes, byContext, index + 1)
  {
    var u, v := byContext[index - 1], byContext[index];
    NeighboursDiffer(nodes, byContext, index);
    ghost var before := ArcPairs(src, arcs[..]);
    ok, adds, newCount, newSrc := true, SameContext(nodes[u], nodes[v]), arcCount, src;
    if adds {
      ok, newCount, newSrc := AddArc(arcs, arcs.Length, arcCount, heads, indegree, |nodes|, u, v, src);
    }
    NeighbourArcsNext(nodes, byContext, index, start, before, ArcPairs(newSrc, arcs[..]));
  }

  lemma {:induction false} NoNeighboursYet(nodes: seq<Node>, s: seq<nat>)
    requires |s| == |nodes|
    ensures |s| >= 1 ==> NeighbourArcs(nodes, s, 1) == {}
    ensures |s| == 0 ==> NeighbourArcs(nodes, s, 0) == {}
  {}

  /** Stores the arc between every two neighbours of one context; `added` says
      whether add_arc was called at all. */
  method StoreChainArcs(nodes: seq<Node>, arcs: array<GraphArc>, heads: array<nat>, indegree: array<nat>,
                        arcCount: nat, ghost src: seq<nat>)
    returns (ok: bool, added: bool, newCount: nat, ghost newSrc: seq<nat>)
    requires |src| == arcCount && arcCount + |nodes| <= arcs.Length <= SIZE_MAX
    requires heads.Length == indegree.Length == |nodes| && heads != indegree
    requires Stored(src, arcs[..], heads[..], indegree[..])
    modifies arcs, heads, indegree
    ensures |newSrc| == newCount <= arcs.Length
    ensures Stored(newSrc, arcs[..], heads[..], indegree[..])
    ensures ok && ArcPairs(newSrc, arcs[..]) == ArcPairs(src, old(arcs[..])) + ChainArcs(nodes)
    ensures !added ==> newCount == arcCount
  {
    hide Stored, NeighbourArcs, ChainArcs, SortedNodes, ArcPairs;
    ok, added, newCount, newSrc := true, false, arcCount, src;
    var byContext := SortByContext(nodes);
    ghost var start := ArcPairs(src, arcs[..]);
    NoNeighboursYet(nodes, byContext);
    if |nodes| > 1 {
      var index := 1;
      while ok && index < |nodes|
        invariant 1 <= index <= |nodes| && |newSrc| == newCount < arcCount + index
        invariant Stored(newSrc, arcs[..], heads[..], indegree[..])
        invariant ok && ArcPairs(newSrc, arcs[..]) == start + NeighbourArcs(nodes, byContext, index)
        invariant !added ==> newCount == arcCount
      {
        var adds;
        ok, adds, newCount, newSrc :=
          StoreNeighbourArc(nodes, byContext, index, arcs, heads, indegree, newCount, newSrc, start);
        added := added || adds;
        index := index + 1;
      }
    }
    AllNeighbourArcs(nodes, byContext);
  }

  lemma {:induction false} EdgeArcsAppend(edges: seq<ModelEdge>, e: ModelEdge)
    ensures EdgeArcs(edges + [e]) == EdgeArcs(edges) + (if e.from != e.to then {(e.from, e.to)} else {})
  {
    forall a
      ensures a in EdgeArcs(edges + [e]) <==> a in EdgeArcs(edges) + (if e.from != e.to then {(e.from, e.to)} else {})
    {
      assert forall x :: x in edges + [e] <==> x in edges || x == e;
    }
  }

  /** Both loops of arc storage. `called` says whether add_arc succeeded at
      least once, which is what the function's status remembers. */
  method StoreCausalArcs(nodes: seq<Node>, edges: seq<ModelEdge>, arcs: array<GraphArc>, heads: array<nat>,
                         indegree: array<nat>)
    returns (ok: bool, called: bool, arcCount: nat, ghost src: seq<nat>)
    requires arcs.Length == |edges| + |nodes| <= SIZE_MAX
    requires heads.Length == indegree.Length == |nodes| && heads != indegree
    requires Stored([], arcs[..], heads[..], indegree[..])
    modifies arcs, heads, indegree
    ensures |src| == arcCount <= arcs.Length
    ensures Stored(src, arcs[..], heads[..], indegree[..])
    ensures ok <==> InRange(edges, |nodes|)
    ensures ok ==> ArcPairs(src, arcs[..]) == CausalArcs(nodes, edges)
    ensures ok && !called ==> arcCount == 0
  {
    ok, arcCount, src := StoreEdgeArcs(edges, arcs, heads, indegree, |nodes|);
    called := edges != [];
    if ok {
      var added;
      ok, added, arcCount, src := StoreChainArcs(nodes, arcs, heads, indegree, arcCount, src);
      called := called || added;
    }
  }

  /** The nodes without incoming arcs enter the heap. */
  method SeedHeap(heap: array<nat>, indegree: array<nat>, n: nat) returns (ok: bool, heapSize: nat,
                  ghost pending: set<nat>)
    requires heap.Length == indegree.Length == n && heap != indegree
    modifies heap
    ensures ok && heapSize == |pending| <= n
    ensures forall v :: v in pending <==> 0 <= v < n && indegree[v] == 0
    ensures HeapOrdered(heap[..heapSize]) && multiset(heap[..heapSize]) == multiset(pending)
  {
    ok, heapSize, pending := true, 0, {};
    var index := 0;
    while index < n
      invariant index <= n && heapSize == |pending| <= index && ok
      invariant forall v :: v in pending <==> 0 <= v < index && indegree[v] == 0
      invariant HeapOrdered(heap[..heapSize]) && multiset(heap[..heapSize]) == multiset(pending)
    {
      if indegree[index] == 0 {
        ok, heapSize := HeapPush(heap, n, heapSize, index);
        if !ok {
          return;
        }
        pending := pending + {index};
      }
      index := index + 1;
    }
  }

  /** Removes one arc: its target loses an arc and becomes pending with the
      last one. The counter is never already zero and the heap never full. */
  method RemoveArc(arc: nat, arcs: array<GraphArc>, arcCount: nat, indegree: array<nat>, heap: array<nat>, size: nat,
                   n: nat,
                   ghost src: seq<nat>, ghost removed: set<nat>, ghost placed: seq<nat>, ghost pending: set<nat>)
    returns (ok: bool, heapSize: nat, ghost newPending: set<nat>)
    requires indegree.Length == heap.Length == n && indegree != heap
    requires |src| == arcCount <= arcs.Length && size <= n
    requires Draining(n, src, arcs[..], indegree[..], removed, placed, pending, heap[..size])
    requires arc < arcCount && arc !in removed && arcs[arc].to < n
    modifies indegree, heap
    ensures ok && heapSize <= n
    ensures Draining(n, src, arcs[..], indegree[..], removed + {arc}, placed, newPending, heap[..heapSize])
  {
    hide ArcPairs, Into, CountsInto, HeapOrdered;
    ok, heapSize, newPending := true, size, pending;
    var destination := arcs[arc].to;
    RemoveCounts(arcs[..], arcCount, removed, indegree[..], arc);
    PendingSize(n, src, arcs[..], indegree[..], removed, placed, pending, heap[..size]);
    if destination >= n || indegree[destination] == 0 {
      ok := false;
      return;
    }
    ghost var before := indegree[..];
    indegree[destination] := indegree[destination] - 1;
    assert indegree[..] == before[destination := before[destination] - 1];
    if indegree[destination] == 0 {
      ok, heapSize := HeapPush(heap, n, heapSize, destination);
      if !ok {
        return;
      }
      newPending := newPending + {destination};
    }
  }

  lemma {:induction false} RemovedStep(src: seq<nat>, placed: seq<nat>, current: nat, top: nat, removed: set<nat>,
                                       arc: nat)
    requires top <= |src| <= SIZE_MAX && RemovedUpTo(src, placed, current, top, removed) && current in placed
    requires arc == LastFrom(src, top, current) && arc != SIZE_MAX
    ensures arc !in removed && RemovedUpTo(src, placed, current, arc, removed + {arc})
  {
    forall k | arc < k < top
      ensures src[k] != current
    {
      if src[k] == current {
        LastFromIsLatest(src, top, current, k);
      }
    }
  }

  lemma {:induction false} RemovedAll(src: seq<nat>, placed: seq<nat>, current: nat, top: nat, removed: set<nat>)
    requires top <= |src| <= SIZE_MAX && RemovedUpTo(src, placed, current, top, removed)
    requires LastFrom(src, top, current) == SIZE_MAX
    ensures forall k :: k in removed <==> 0 <= k < |src| && src[k] in placed
  {
    forall k | 0 <= k < top
      ensures src[k] != current
    {
      if src[k] == current {
        LastFromIsLatest(src, top, current, k);
      }
    }
  }

  /** Removes the arcs of the node just placed, newest first, and pushes every
      target whose last arc this was. */
  method EmitSuccessors(ghost current: nat, head: nat, arcs: array<GraphArc>, arcCount: nat, indegree: array<nat>,
                        heap: array<nat>, size: nat, n: nat, ghost src: seq<nat>, ghost removed: set<nat>,
                        ghost placed: seq<nat>, ghost pending: set<nat>)
    returns (ok: bool, heapSize: nat, ghost newRemoved: set<nat>, ghost newPending: set<nat>)
    requires indegree.Length == heap.Length == n && indegree != heap
    requires |src| == arcCount <= arcs.Length && size <= n
    requires arcCount <= SIZE_MAX && head == LastFrom(src, arcCount, current)
    requires forall k :: 0 <= k < |src| ==> ArcOk(src, arcs[..], n, k)
    requires Draining(n, src, arcs[..], indegree[..], removed, placed, pending, heap[..size])
    requires current in placed && RemovedUpTo(src, placed, current, arcCount, removed)
    modifies indegree, heap
    ensures ok && heapSize <= n
    ensures Draining(n, src, arcs[..], indegree[..], newRemoved, placed, newPending, heap[..heapSize])
    ensures forall k :: k in newRemoved <==> 0 <= k < |src| && src[k] in placed
  {
    hide Draining, RemovedUpTo, LastFrom;
    ok, heapSize, newRemoved, newPending := true, size, removed, pending;
    ghost var stored := arcs[..];
    var arc := head;
    ghost var top: nat := arcCount;
    while arc != SIZE_MAX
      invariant ok && heapSize <= n && top <= arcCount && arc == LastFrom(src, top, current)
      invariant arcs[..] == stored
      invariant Draining(n, src, arcs[..], indegree[..], newRemoved, placed, newPending, heap[..heapSize])
      invariant RemovedUpTo(src, placed, current, top, newRemoved)
      decreases top
    {
      if arc >= arcCount {
        ok := false;
        return;
      }
      assert ArcOk(src, stored, n, arc);
      RemovedStep(src, placed, current, top, newRemoved, arc);
      ok, heapSize, newPending :=
        RemoveArc(arc, arcs, arcCount, indegree, heap, heapSize, n, src, newRemoved, placed, newPending);
      if !ok {
        return;
      }
      newRemoved := newRemoved + {arc};
      top := arc;
      arc := arcs[arc].next;
    }
    RemovedAll(src, placed, current, top, newRemoved);
  }

  lemma {:induction false} RemoveFromMultiset(s: set<nat>, x: nat, m: multiset<nat>)
    requires x in s && m + multiset{x} == multiset(s)
    ensures m == multiset(s - {x})
  {
    forall y
      ensures m[y] == multiset(s - {x})[y]
    {
      assert (m + multiset{x})[y] == m[y] + (if y == x then 1 else 0);
    }
  }

  /** Once a node is placed and popped, its arcs are the next to be removed. */
  lemma {:induction false} PlaceNode(n: nat, src: seq<nat>, arcs: seq<GraphArc>, indegree: seq<nat>, removed: set<nat>,
                  placed: seq<nat>, pending: set<nat>, heap: seq<nat>, current: nat, rest: seq<nat>)
    requires Draining(n, src, arcs, indegree, removed, placed, pending, heap)
    requires forall k :: k in removed <==> 0 <= k < |src| && src[k] in placed
    requires HeapOrdered(rest) && multiset(rest) + multiset{current} == multiset(heap)
    requires forall x :: x in heap ==> current <= x
    requires Greedy(ArcPairs(src, arcs), n, placed)
    ensures current < n && |placed| < n
    ensures Draining(n, src, arcs, indegree, removed, placed + [current], pending - {current}, rest)
    ensures RemovedUpTo(src, placed + [current], current, |src|, removed)
    ensures Greedy(ArcPairs(src, arcs), n, placed + [current])
  {
    var g := ArcPairs(src, arcs);
    PendingSize(n, src, arcs, indegree, removed, placed, pending, heap);
    assert current in multiset(heap);
    RemoveFromMultiset(pending, current, multiset(rest));
    forall w
      ensures Ready(g, n, placed, w) <==> w in pending
    {
      if 0 <= w {
        PendingIffReady(n, src, arcs, indegree, removed, placed, pending, heap, w);
      }
    }
    GreedyExtends(g, n, placed, current);
    GreedyMembers(g, n, placed + [current]);
  }

  lemma {:induction false} NothingReady(n: nat, src: seq<nat>, arcs: seq<GraphArc>, indegree: seq<nat>,
                                        removed: set<nat>,
                     placed: seq<nat>, pending: set<nat>)
    requires Draining(n, src, arcs, indegree, removed, placed, pending, [])
    requires forall k :: k in removed <==> 0 <= k < |src| && src[k] in placed
    ensures forall v :: !Ready(ArcPairs(src, arcs), n, placed, v)
  {
    PendingSize(n, src, arcs, indegree, removed, placed, pending, []);
    forall v: nat
      ensures !Ready(ArcPairs(src, arcs), n, placed, v)
    {
      PendingIffReady(n, src, arcs, indegree, removed, placed, pending, [], v);
    }
  }

  lemma {:induction false} HeapWhileDraining(n: nat, src: seq<nat>, arcs: seq<GraphArc>, indegree: seq<nat>,
                                             removed: set<nat>, placed: seq<nat>, pending: set<nat>, heap: seq<nat>)
    requires Draining(n, src, arcs, indegree, removed, placed, pending, heap)
    ensures HeapOrdered(heap)
  {}

  /** One round of the emission loop: the least pending node is placed and the
      nodes that it made ready are pushed. */
  method EmitNext(arcs: array<GraphArc>, arcCount: nat, heads: array<nat>, indegree: array<nat>, heap: array<nat>,
                  size: nat,
                  ordered: array<nat>, emitted: nat, n: nat, ghost src: seq<nat>, ghost removed: set<nat>,
                  ghost pending: set<nat>)
    returns (ok: bool, heapSize: nat, ghost newRemoved: set<nat>, ghost newPending: set<nat>)
    requires heads.Length == indegree.Length == heap.Length == ordered.Length == n
    requires heads != indegree && heads != heap && indegree != heap && ordered != heads && ordered != indegree
             && ordered != heap
    requires |src| == arcCount <= arcs.Length && 0 < size <= n && emitted <= n && Linked(src, arcs[..], heads[..])
    requires Draining(n, src, arcs[..], indegree[..], removed, ordered[..emitted], pending, heap[..size])
    requires forall k :: k in removed <==> 0 <= k < |src| && src[k] in ordered[..emitted]
    requires Greedy(ArcPairs(src, arcs[..]), n, ordered[..emitted])
    modifies indegree, heap, ordered
    ensures ok && heapSize <= n && emitted < n
    ensures Draining(n, src, arcs[..], indegree[..], newRemoved, ordered[..emitted + 1], newPending, heap[..heapSize])
    ensures forall k :: k in newRemoved <==> 0 <= k < |src| && src[k] in ordered[..emitted + 1]
    ensures Greedy(ArcPairs(src, arcs[..]), n, ordered[..emitted + 1])
  {
    hide Draining, Greedy, Ready, ArcPairs;
    ghost var placed, waiting := ordered[..emitted], heap[..size];
    HeapWhileDraining(n, src, arcs[..], indegree[..], removed, placed, pending, waiting);
    var current;
    current, heapSize := HeapPop(heap, size);
    PlaceNode(n, src, arcs[..], indegree[..], removed, placed, pending, waiting, current, heap[..heapSize]);
    if current >= n || emitted >= n {
      return false, heapSize, removed, pending;
    }
    ordered[emitted] := current;
    assert ordered[..emitted + 1] == placed + [current];
    ok, heapSize, newRemoved, newPending :=
      EmitSuccessors(current, heads[current], arcs, arcCount, indegree, heap, heapSize, n, src,
                                                           removed, ordered[..emitted + 1], pending - {current});
  }

  /** The emission loop: places ready nodes, least first, until none is left. */
  method Drain(arcs: array<GraphArc>, arcCount: nat, heads: array<nat>, indegree: array<nat>, heap: array<nat>,
               size: nat,
               ordered: array<nat>, n: nat, ghost src: seq<nat>, ghost seeds: set<nat>)
    returns (ok: bool, emitted: nat)
    requires heads.Length == indegree.Length == heap.Length == ordered.Length == n
    requires heads != indegree && heads != heap && indegree != heap && ordered != heads && ordered != indegree
             && ordered != heap
    requires |src| == arcCount <= arcs.Length && size <= n
    requires Linked(src, arcs[..], heads[..])
    requires Draining(n, src, arcs[..], indegree[..], {}, [], seeds, heap[..size])
    modifies indegree, heap, ordered
    ensures ok && emitted <= n
    ensures Greedy(ArcPairs(src, arcs[..]), n, ordered[..emitted])
    ensures forall v :: !Ready(ArcPairs(src, arcs[..]), n, ordered[..emitted], v)
  {
    emitted, ok := 0, true;
    var heapSize: nat := size;
    ghost var removed, pending := {}, seeds;
    while ok && heapSize > 0
      invariant ok && heapSize <= n && emitted <= n
      invariant Draining(n, src, arcs[..], indegree[..], removed, ordered[..emitted], pending, heap[..heapSize])
      invariant forall k :: k in removed <==> 0 <= k < |src| && src[k] in ordered[..emitted]
      invariant Greedy(ArcPairs(src, arcs[..]), n, ordered[..emitted])
      decreases n - emitted
    {
      ok, heapSize, removed, pending :=
        EmitNext(arcs, arcCount, heads, indegree, heap, heapSize, ordered, emitted, n, src, removed, pending);
      emitted := emitted + 1;
    }
    assert heap[..heapSize] == [];
    NothingReady(n, src, arcs[..], indegree[..], removed, ordered[..emitted], pending);
  }

  /** A drained order is complete exactly when the arcs have no cycle. */
  lemma {:induction false} DrainedIsComplete(g: set<(nat, nat)>, n: nat, s: seq<nat>)
    requires Greedy(g, n, s) && forall v :: !Ready(g, n, s, v)
    requires forall u, v :: (u, v) in g ==> u < n && v < n
    ensures |s| == n <==> !Cyclic(g)
    ensures |s| == n ==> Topological(g, n, s)
    ensures |s| == n ==> forall t :: Topological(g, n, t) ==> LexicographicallyAtMost(s, t)
  {
    GreedyMembers(g, n, s);
    if |s| == n {
      GreedyIsTopological(g, n, s);
      TopologicalMeansAcyclic(g, n, s);
      forall t | Topological(g, n, t)
        ensures LexicographicallyAtMost(s, t)
      {
        GreedyIsLeast(g, n, s, t);
      }
    } else {
      SomeoneMissing(s, n);
      StuckMeansCyclic(g, n, s);
    }
  }

  ghost function Members(s: seq<nat>): set<nat> {
    set x | x in s
  }

  lemma {:induction false} MembersBounded(s: seq<nat>)
    ensures |Members(s)| <= |s|
  {
    if s == [] {
      assert Members(s) == {};
    } else {
      MembersBounded(s[1..]);
      assert Members(s) == Members(s[1..]) + {s[0]};
    }
  }

  lemma {:induction false} SomeoneMissing(s: seq<nat>, n: nat)
    requires |s| < n
    ensures exists v: nat :: v < n && v !in s
  {
    MembersBounded(s);
    if Below(n) <= Members(s) {
      SubsetSize(Below(n), Members(s));
    }
    var v :| v in Below(n) && v !in Members(s);
  }

  lemma {:induction false} CausalArcsInRange(nodes: seq<Node>, edges: seq<ModelEdge>)
    requires InRange(edges, |nodes|)
    ensures forall u, v :: (u, v) in CausalArcs(nodes, edges) ==> u < |nodes| && v < |nodes|
  {}

  lemma {:induction false} NothingStored(arcs: seq<GraphArc>, heads: seq<nat>, indegree: seq<nat>)
    requires |heads| == |indegree|
    requires forall v :: 0 <= v < |heads| ==> heads[v] == SIZE_MAX && indegree[v] == 0
    ensures Stored([], arcs, heads, indegree)
  {
    assert forall v :: 0 <= v < |indegree| ==> Into(arcs, 0, {}, v) == {};
  }

  /** Without arcs every node is ready. */
  lemma {:induction false} FirstIsReady(arcs: seq<GraphArc>, heads: seq<nat>, indegree: seq<nat>)
    requires Stored([], arcs, heads, indegree) && indegree != []
    ensures indegree[0] == 0
  {
    assert Into(arcs, 0, {}, 0) == {};
  }

  /** The seeding and emission loops. `pushed` says whether any node was ready
      at the start. */
  method SeedAndDrain(arcs: array<GraphArc>, arcCount: nat, heads: array<nat>, indegree: array<nat>, heap: array<nat>,
                      ordered: array<nat>, n: nat, ghost src: seq<nat>)
    returns (ok: bool, pushed: bool, emitted: nat)
    requires heads.Length == indegree.Length == heap.Length == ordered.Length == n
    requires heads != indegree && heads != heap && indegree != heap
    requires ordered != heads && ordered != indegree && ordered != heap
    requires |src| == arcCount <= arcs.Length && Stored(src, arcs[..], heads[..], indegree[..])
    modifies indegree, heap, ordered
    ensures ok && emitted <= n && (arcCount == 0 && n > 0 ==> pushed)
    ensures Greedy(ArcPairs(src, arcs[..]), n, ordered[..emitted])
    ensures forall v :: !Ready(ArcPairs(src, arcs[..]), n, ordered[..emitted], v)
  {
    hide Greedy, Ready, ArcPairs;
    if arcCount == 0 && n > 0 {
      FirstIsReady(arcs[..], heads[..], indegree[..]);
    }
    var heapSize;
    ghost var pending;
    ok, heapSize, pending := SeedHeap(heap, indegree, n);
    assert arcCount == 0 && n > 0 ==> 0 in pending;
    pushed := heapSize > 0;
    ok, emitted := Drain(arcs, arcCount, heads, indegree, heap, heapSize, ordered, n, src, pending);
  }

  /** build_causal_order. `status` is what the function returns: on a cycle it
      is 0, and only `trouble` and the empty order tell. */
  method BuildCausalOrder(nodes: seq<Node>, edges: seq<ModelEdge>)
    returns (status: int, ordered: array<nat>, orderedCount: nat, trouble: bool)
    requires |nodes| <= SIZE_MAX
    ensures fresh(ordered) && ordered.Length == |nodes| && orderedCount <= |nodes|
    ensures status == if |edges| <= SIZE_MAX - |nodes| && InRange(edges, |nodes|) then 0 else FAILURE
    ensures status != 0 ==> !trouble && orderedCount == 0
    ensures status == 0 ==> (trouble <==> Cyclic(CausalArcs(nodes, edges)))
    ensures status == 0 && trouble ==> orderedCount == 0
    ensures status == 0 && !trouble ==>
              orderedCount == |nodes|
              && Topological(CausalArcs(nodes, edges), |nodes|, ordered[..])
              && forall t :: Topological(CausalArcs(nodes, edges), |nodes|, t) ==>
                 LexicographicallyAtMost(ordered[..], t)
    ensures status == 0 ==> (trouble <==> forall t :: !Causal(nodes, edges, t))
    ensures status == 0 && !trouble ==>
              Causal(nodes, edges, ordered[..])
              && forall t :: Causal(nodes, edges, t) ==> LexicographicallyAtMost(ordered[..], t)
  {
    hide Causal, Greedy, Topological, Cyclic, LexicographicallyAtMost, Ready, CausalArcs, ArcPairs;
    var n := |nodes|;
    status, orderedCount, trouble := FAILURE, 0, false;
    ordered := new nat[n];
    if |edges| > SIZE_MAX - n {
      return;
    }
    var heads := new nat[n](_ => SIZE_MAX);
    var indegree := new nat[n](_ => 0);
    var heap := new nat[n];
    var arcs := new GraphArc[|edges| + n](_ => GraphArc(0, 0));
    NothingStored(arcs[..], heads[..], indegree[..]);
    var ok, called, arcCount;
    ghost var src;
    ok, called, arcCount, src := StoreCausalArcs(nodes, edges, arcs, heads, indegree);
    if !ok {
      return;
    }
    var pushed, emitted;
    ok, pushed, emitted := SeedAndDrain(arcs, arcCount, heads, indegree, heap, ordered, n, src);
    if called || pushed {
      status := 0;
    }
    if !ok {
      status := FAILURE;
      return;
    }
    CausalArcsInRange(nodes, edges);
    DrainedIsComplete(CausalArcs(nodes, edges), n, ordered[..emitted]);
    OrdersAreCausal(nodes, edges);
    if emitted != n {
      trouble := true;
    } else {
      assert ordered[..emitted] == ordered[..];
      orderedCount := emitted;
      status := 0;
    }
  }
}
