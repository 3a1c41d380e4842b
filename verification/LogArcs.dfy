/** The two kinds of arcs of a built model: local ones, between records of one
    process with rising numbers, and creations, from a fork or spawn record to
    every record of the process it created. */
module LogArcs {
  import opened CallEdges
  import opened CausalSpec
  import opened ContextOrder
  import opened Events
  import opened Lifetimes

  // ---------- Logs ----------

  /** The records of a context have different numbers, and those of its calls
      rise. The other records may stand anywhere in the log. */
  predicate ContextsNumbered(nodes: seq<Node>) {
    forall a, b :: 0 <= a < b < |nodes| && SameContext(nodes[a], nodes[b]) ==>
                     nodes[a].sequence != nodes[b].sequence
                     && (nodes[a].kind == CallRecord && nodes[b].kind == CallRecord ==>
                           nodes[a].sequence < nodes[b].sequence)
  }

  predicate IsCreator(n: Node) {
    n.kind == ForkRecord || n.kind == SpawnRecord
  }

  predicate IsParentOf(n: Node, child: Node) {
    IsCreator(n) && child.pid == n.childPid
  }

  /** The edges are those of the finished model. */
  ghost predicate Built(nodes: seq<Node>, edges: seq<ModelEdge>) {
    forall e :: e in edges <==> BuiltEdge(nodes, e)
  }

  // ---------- Kinds of arcs ----------

  /** Within a process, to a larger number; into a creating record only from its
      own context. */
  predicate LocalArc(nodes: seq<Node>, u: nat, v: nat) {
    && u < |nodes| && v < |nodes|
    && nodes[u].pid == nodes[v].pid && nodes[u].sequence < nodes[v].sequence
    && (IsCreator(nodes[v]) ==> SameContext(nodes[u], nodes[v]))
  }

  predicate CreationArc(nodes: seq<Node>, u: nat, v: nat) {
    u < |nodes| && v < |nodes| && u != v && IsParentOf(nodes[u], nodes[v])
  }

  lemma {:induction false} EnclosingIsEarlier(nodes: seq<Node>, matched: seq<nat>, c: nat, j: nat)
    requires ContextsNumbered(nodes) && |nodes| == |matched| && c < |nodes| && j < |nodes| && c != j
    requires Surrounds(nodes, matched, c, nodes[j])
    ensures LocalArc(nodes, c, j)
  {}

  lemma {:induction false} EndIsLater(nodes: seq<Node>, i: nat, j: nat)
    requires i < |nodes| && j < |nodes| && Ends(nodes[i], nodes[j]) && IsResource(nodes[i]) && IsBirth(nodes[i])
    ensures LocalArc(nodes, i, j)
  {
    EndIsNoCreator(nodes[i], nodes[j]);
  }

  lemma {:induction false} EndIsNoCreator(birth: Node, death: Node)
    requires IsBirth(birth) && Matches(birth, death)
    ensures !IsCreator(death)
  {}

  lemma {:induction false} EdgeKinds(nodes: seq<Node>, e: ModelEdge)
    requires ContextsNumbered(nodes) && |nodes| < SIZE_MAX && BuiltEdge(nodes, e) && e.from != e.to
    ensures LocalArc(nodes, e.from, e.to) || CreationArc(nodes, e.from, e.to)
  {
    hide Ends, Surrounds, Pass, IsBirth, LocalArc;
    var calls := Pass(nodes, |nodes|);
    if e in calls.edges {
      EdgesAreMatchingAndForest(nodes, |nodes|);
      assert EdgeOk(nodes, |nodes|, e);
      CallsAreLocal(nodes, e.from, e.to);
    } else if e.kind == CallCausedEvent {
      EnclosingIsEarlier(nodes, calls.matched, e.from, e.to);
    } else if e.kind == ResourceLifetime {
      EndFound(nodes, e.from, e.to);
      EndIsLater(nodes, e.from, e.to);
    }
  }

  lemma {:induction false} EndFound(nodes: seq<Node>, i: nat, r: nat)
    requires i < |nodes| && r != SIZE_MAX && IsLifetimeEnd(nodes, i, |nodes|, r)
    ensures r < |nodes| && Ends(nodes[i], nodes[r])
  {}

  lemma {:induction false} CallsAreLocal(nodes: seq<Node>, i: nat, j: nat)
    requires ContextsNumbered(nodes) && i < j < |nodes| && SameContext(nodes[i], nodes[j])
    requires nodes[i].kind == CallRecord && nodes[j].kind == CallRecord
    ensures LocalArc(nodes, i, j)
  {}

  lemma {:induction false} ChainIsLocal(nodes: seq<Node>, i: nat, j: nat)
    requires ContextsNumbered(nodes) && (i, j) in ChainArcs(nodes)
    ensures LocalArc(nodes, i, j)
  {
    hide ChainArcs;
    ChainIsLower(nodes, i, j);
    assert i != j && SameContext(nodes[i], nodes[j]) && SameContext(nodes[j], nodes[i]);
  }

  lemma {:induction false} ArcKinds(nodes: seq<Node>, edges: seq<ModelEdge>, u: nat, v: nat)
    requires ContextsNumbered(nodes) && |nodes| < SIZE_MAX && Built(nodes, edges) && (u, v) in CausalArcs(nodes, edges)
    ensures LocalArc(nodes, u, v) || CreationArc(nodes, u, v)
  {
    hide BuiltEdge, ChainArcs, LocalArc, CreationArc, ContextsNumbered;
    if (u, v) in EdgeArcs(edges) {
      var e :| e in edges && e.from != e.to && (e.from, e.to) == (u, v);
      EdgeKinds(nodes, e);
    } else {
      ChainIsLocal(nodes, u, v);
    }
  }

  /** Every creation is an arc. */
  lemma {:induction false} CreationIsArc(nodes: seq<Node>, edges: seq<ModelEdge>, u: nat, v: nat)
    requires Built(nodes, edges) && CreationArc(nodes, u, v)
    ensures (u, v) in CausalArcs(nodes, edges)
  {
    hide Pass, ChainArcs;
    var e := ModelEdge(ProcessChildEvent, u, v);
    assert BuiltEdge(nodes, e);
    assert e in edges;
  }

  /** Arcs are local or creations, and all creations are arcs. */
  ghost predicate KindsKnown(nodes: seq<Node>, g: set<(nat, nat)>) {
    && (forall u: nat, v: nat :: (u, v) in g ==> LocalArc(nodes, u, v) || CreationArc(nodes, u, v))
    && (forall u: nat, v: nat :: CreationArc(nodes, u, v) ==> (u, v) in g)
  }

  lemma {:induction false} KindsOfCausalArcs(nodes: seq<Node>, edges: seq<ModelEdge>)
    requires ContextsNumbered(nodes) && |nodes| < SIZE_MAX && Built(nodes, edges)
    ensures KindsKnown(nodes, CausalArcs(nodes, edges))
  {
    hide ContextsNumbered, Built, CausalArcs, LocalArc, CreationArc;
    forall u: nat, v: nat | (u, v) in CausalArcs(nodes, edges)
      ensures LocalArc(nodes, u, v) || CreationArc(nodes, u, v)
    {
      ArcKinds(nodes, edges, u, v);
    }
    forall u: nat, v: nat | CreationArc(nodes, u, v)
      ensures (u, v) in CausalArcs(nodes, edges)
    {
      CreationIsArc(nodes, edges, u, v);
    }
  }
}
