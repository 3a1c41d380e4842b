/** What the call edges of any log are, told from the edges and the records
    alone: an exit returns to the newest entry of its context and name that no
    earlier exit returned to; an entry's parent is the newest entry of its
    context that no earlier exit returned to. */
module CallMatching {
  import opened Events

  predicate EntersCall(n: Node) {
    n.kind == CallRecord && n.callKind == Enter
  }

  predicate LeavesCall(n: Node) {
    n.kind == CallRecord && n.callKind == Exit
  }

  /** No record before i returned to c. */
  ghost predicate UnmatchedBefore(edges: seq<ModelEdge>, c: nat, i: nat) {
    forall j: nat :: j < i ==> ModelEdge(CallReturn, c, j) !in edges
  }

  /** Entry c of i's context is earlier than i and not returned to before i. */
  ghost predicate OpenFor(nodes: seq<Node>, edges: seq<ModelEdge>, c: nat, i: nat) {
    && c < i < |nodes| && EntersCall(nodes[c]) && UnmatchedBefore(edges, c, i)
    && nodes[c].pid == nodes[i].pid && nodes[c].context == nodes[i].context
  }

  ghost predicate NamedFor(nodes: seq<Node>, edges: seq<ModelEdge>, c: nat, i: nat) {
    OpenFor(nodes, edges, c, i) && nodes[c].callName == nodes[i].callName
  }

  ghost predicate ReturnsTo(nodes: seq<Node>, edges: seq<ModelEdge>, c: nat, i: nat) {
    && i < |nodes| && LeavesCall(nodes[i]) && NamedFor(nodes, edges, c, i)
    && forall d: nat :: c < d ==> !NamedFor(nodes, edges, d, i)
  }

  ghost predicate CalledFrom(nodes: seq<Node>, edges: seq<ModelEdge>, c: nat, i: nat) {
    && i < |nodes| && EntersCall(nodes[i]) && OpenFor(nodes, edges, c, i)
    && forall d: nat :: c < d ==> !OpenFor(nodes, edges, d, i)
  }

  ghost predicate RightEdge(nodes: seq<Node>, edges: seq<ModelEdge>, e: ModelEdge) {
    match e.kind
    case CallReturn => ReturnsTo(nodes, edges, e.from, e.to)
    case CallParent => CalledFrom(nodes, edges, e.from, e.to)
    case _ => false
  }

  predicate IsCallEdge(e: ModelEdge) {
    e.kind == CallReturn || e.kind == CallParent
  }

  /** The call edges among these edges are the right ones. */
  ghost predicate CallsMatched(nodes: seq<Node>, edges: seq<ModelEdge>) {
    forall e :: IsCallEdge(e) ==> (e in edges <==> RightEdge(nodes, edges, e))
  }

  // ---------- Only one set of edges is right ----------

  ghost predicate SameBefore(a: seq<ModelEdge>, b: seq<ModelEdge>, k: nat) {
    forall e :: IsCallEdge(e) && e.to < k ==> (e in a <==> e in b)
  }

  lemma {:induction false} SameMatches(nodes: seq<Node>, a: seq<ModelEdge>, b: seq<ModelEdge>, e: ModelEdge)
    requires SameBefore(a, b, e.to)
    ensures RightEdge(nodes, a, e) <==> RightEdge(nodes, b, e)
  {
    forall c: nat
      ensures UnmatchedBefore(a, c, e.to) <==> UnmatchedBefore(b, c, e.to)
    {
      forall j: nat | j < e.to
        ensures ModelEdge(CallReturn, c, j) in a <==> ModelEdge(CallReturn, c, j) in b
      {
        assert IsCallEdge(ModelEdge(CallReturn, c, j));
      }
    }
    forall c: nat
      ensures OpenFor(nodes, a, c, e.to) <==> OpenFor(nodes, b, c, e.to)
      ensures NamedFor(nodes, a, c, e.to) <==> NamedFor(nodes, b, c, e.to)
    {}
  }

  lemma {:induction false} MatchedAlike(nodes: seq<Node>, a: seq<ModelEdge>, b: seq<ModelEdge>, k: nat)
    requires CallsMatched(nodes, a) && CallsMatched(nodes, b)
    ensures SameBefore(a, b, k)
  {
    hide RightEdge;
    if k > 0 {
      MatchedAlike(nodes, a, b, k - 1);
      forall e | IsCallEdge(e) && e.to < k
        ensures e in a <==> e in b
      {
        if e.to == k - 1 {
          SameMatches(nodes, a, b, e);
        }
      }
    }
  }

  /** The log determines its call edges. */
  lemma {:induction false} CallEdgesUnique(nodes: seq<Node>, a: seq<ModelEdge>, b: seq<ModelEdge>, e: ModelEdge)
    requires CallsMatched(nodes, a) && CallsMatched(nodes, b) && IsCallEdge(e)
    ensures e in a <==> e in b
  {
    hide CallsMatched;
    MatchedAlike(nodes, a, b, e.to + 1);
  }

  /** Only the call edges among the edges count. */
  lemma {:induction false} OtherEdgesDoNotCount(nodes: seq<Node>, calls: seq<ModelEdge>, all: seq<ModelEdge>)
    requires CallsMatched(nodes, calls) && forall e :: IsCallEdge(e) ==> (e in calls <==> e in all)
    ensures CallsMatched(nodes, all)
  {
    hide RightEdge;
    forall e | IsCallEdge(e)
      ensures e in all <==> RightEdge(nodes, all, e)
    {
      SameMatches(nodes, calls, all, e);
    }
  }
}
