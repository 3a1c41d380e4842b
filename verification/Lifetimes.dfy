/** build_resource_edges: a resource record is joined to the call it was made
    in, to the record that ends the life it starts, and, for a fork, to the
    records of the child. */
module Lifetimes {
  import opened CallEdges
  import opened CallMatching
  import CausalSpec
  import opened EdgeMeanings
  import opened Events

  // ---------- Predicates on nodes ----------

  /** is_lifetime_birth. */
  predicate IsBirth(n: Node) {
    match n.kind
    case FdRecord => n.fdKind == Open
    case AllocRecord => n.allocKind == Alloc || (n.allocKind == Realloc && !n.newPtrNull)
    case ResourceRecord =>
      n.resourceKind == Acquire || ((n.resourceKind == Replace || n.resourceKind == Transfer) && n.relatedId != "")
    case _ => false
  }

  /** lifetime_matches, for a birth. */
  predicate Matches(birth: Node, death: Node) {
    if birth.kind == FdRecord then death.kind == FdRecord && death.fdKind == Close && death.fd == birth.fd
    else if birth.kind == AllocRecord then
      var id := if birth.allocKind == Realloc then birth.newPtr else birth.ptr;
      death.kind == AllocRecord && (death.allocKind == Free || death.allocKind == Realloc) && death.ptr == id
    else
      var id := if birth.resourceKind == Acquire then birth.resourceId else birth.relatedId;
      death.kind == ResourceRecord && death.resourceClass == birth.resourceClass
      && (death.resourceKind == Release || death.resourceKind == Replace || death.resourceKind == Transfer)
      && death.resourceId == id
  }

  predicate Ends(birth: Node, death: Node) {
    death.sequence > birth.sequence && death.pid == birth.pid && Matches(birth, death)
  }

  /** Call c had begun, and had not been left, when n was recorded. */
  predicate Surrounds(nodes: seq<Node>, matched: seq<nat>, c: nat, n: Node)
    requires c < |nodes| == |matched|
  {
    IsEnter(nodes[c]) && SameContext(nodes[c], n) && nodes[c].sequence <= n.sequence
    && (matched[c] >= |nodes| || nodes[matched[c]].sequence >= n.sequence)
  }

  predicate IsResource(n: Node) {
    n.kind != CallRecord
  }

  // ---------- The searches ----------

  /** The end of a life among the first k nodes: the smallest sequence number,
      and the first node that has it. */
  ghost predicate IsLifetimeEnd(nodes: seq<Node>, i: nat, k: nat, r: nat)
    requires i < |nodes| && k <= |nodes|
  {
    if r == SIZE_MAX then forall j: nat :: j < k ==> !Ends(nodes[i], nodes[j])
    else r < k && Ends(nodes[i], nodes[r])
         && forall j: nat :: j < k && Ends(nodes[i], nodes[j]) ==>
              nodes[r].sequence < nodes[j].sequence || (nodes[r].sequence == nodes[j].sequence && r <= j)
  }

  /** The newest surrounding call among the first k nodes. */
  ghost predicate IsEnclosing(nodes: seq<Node>, matched: seq<nat>, n: Node, k: nat, r: nat)
    requires k <= |nodes| == |matched|
  {
    if r == SIZE_MAX then forall c: nat :: c < k ==> !Surrounds(nodes, matched, c, n)
    else r < k && Surrounds(nodes, matched, r, n)
         && forall c: nat :: c < k && Surrounds(nodes, matched, c, n) ==>
              nodes[c].sequence < nodes[r].sequence || (nodes[c].sequence == nodes[r].sequence && r <= c)
  }

  method FindLifetimeEnd(nodes: seq<Node>, birthIndex: nat) returns (r: nat)
    requires birthIndex < |nodes| < SIZE_MAX
    ensures if IsBirth(nodes[birthIndex]) then IsLifetimeEnd(nodes, birthIndex, |nodes|, r) else r == SIZE_MAX
  {
    r := SIZE_MAX;
    var birth := nodes[birthIndex];
    if IsBirth(birth) {
      var index := 0;
      while index < |nodes|
        invariant index <= |nodes| && IsLifetimeEnd(nodes, birthIndex, index, r)
      {
        var death := nodes[index];
        if death.sequence > birth.sequence && death.pid == birth.pid && Matches(birth, death)
           && (r == SIZE_MAX || death.sequence < nodes[r].sequence) {
          r := index;
        }
        index := index + 1;
      }
    }
  }

  predicate MatchedInRange(matched: seq<nat>) {
    forall c :: 0 <= c < |matched| ==> matched[c] == SIZE_MAX || matched[c] < |matched|
  }

  method FindEnclosingCall(nodes: seq<Node>, matchedExit: array<nat>, resourceIndex: nat) returns (r: nat)
    requires resourceIndex < |nodes| == matchedExit.Length && |nodes| < SIZE_MAX && MatchedInRange(matchedExit[..])
    ensures IsEnclosing(nodes, matchedExit[..], nodes[resourceIndex], |nodes|, r)
  {
    var resource := nodes[resourceIndex];
    r := SIZE_MAX;
    var index := 0;
    while index < |nodes|
      invariant index <= |nodes| && IsEnclosing(nodes, matchedExit[..], resource, index, r)
    {
      var enter, exit := nodes[index], matchedExit[index];
      if IsEnter(enter) && SameContext(enter, resource) && enter.sequence <= resource.sequence {
        if exit == SIZE_MAX || nodes[exit].sequence >= resource.sequence {
          if r == SIZE_MAX || nodes[r].sequence < enter.sequence {
            r := index;
          }
        }
      }
      index := index + 1;
    }
  }

  // ---------- The edges ----------

  /** What an edge of build_resource_edges means. */
  ghost predicate ResourceEdge(nodes: seq<Node>, matched: seq<nat>, e: ModelEdge)
    requires |nodes| == |matched|
  {
    e.from < |nodes| && e.to < |nodes|
    && match e.kind
       case CallCausedEvent => IsResource(nodes[e.to]) && e.from != SIZE_MAX
         && IsEnclosing(nodes, matched, nodes[e.to], |nodes|, e.from)
       case ResourceLifetime => IsResource(nodes[e.from]) && IsBirth(nodes[e.from]) && e.to != SIZE_MAX
         && IsLifetimeEnd(nodes, e.from, |nodes|, e.to)
       case ProcessChildEvent =>
         (nodes[e.from].kind == ForkRecord || nodes[e.from].kind == SpawnRecord)
           && nodes[e.to].pid == nodes[e.from].childPid
       case _ => false
  }

  /** The record whose turn in the pass adds the edge. */
  function Owner(e: ModelEdge): nat {
    if e.kind == CallCausedEvent then e.to else e.from
  }

  ghost predicate Distinct(edges: seq<ModelEdge>) {
    forall a, b :: 0 <= a < b < |edges| ==> edges[a] != edges[b]
  }

  ghost predicate EdgesUpTo(nodes: seq<Node>, matched: seq<nat>, edges: seq<ModelEdge>, k: nat)
    requires |nodes| == |matched|
  {
    Distinct(edges) && forall e :: e in edges <==> ResourceEdge(nodes, matched, e) && Owner(e) < k
  }

  /** Node k owns these edges among the children before c. */
  ghost predicate EdgesOf(nodes: seq<Node>, matched: seq<nat>, edges: seq<ModelEdge>, k: nat, c: nat)
    requires |nodes| == |matched|
  {
    Distinct(edges)
    && forall e ::
         e in edges <==> ResourceEdge(nodes, matched, e) && Owner(e) == k && (e.kind == ProcessChildEvent ==> e.to < c)
  }

  lemma {:induction false} EdgesJoin(nodes: seq<Node>, matched: seq<nat>, edges: seq<ModelEdge>,
                                     added: seq<ModelEdge>, k: nat)
    requires k < |nodes| == |matched|
    requires EdgesUpTo(nodes, matched, edges, k) && EdgesOf(nodes, matched, added, k, |nodes|)
    ensures EdgesUpTo(nodes, matched, edges + added, k + 1)
  {
    var all := edges + added;
    forall a, b | 0 <= a < b < |all|
      ensures all[a] != all[b]
    {
      assert a < |edges| ==> all[a] in edges;
      assert b >= |edges| ==> all[b] in added;
    }
  }

  lemma {:induction false} EndUnique(nodes: seq<Node>, i: nat, r: nat, q: nat)
    requires i < |nodes| < SIZE_MAX && IsLifetimeEnd(nodes, i, |nodes|, r) && IsLifetimeEnd(nodes, i, |nodes|, q)
    ensures r == q
  {}

  lemma {:induction false} EnclosingUnique(nodes: seq<Node>, matched: seq<nat>, n: Node, r: nat, q: nat)
    requires |nodes| == |matched| && |nodes| < SIZE_MAX
    requires IsEnclosing(nodes, matched, n, |nodes|, r) && IsEnclosing(nodes, matched, n, |nodes|, q)
    ensures r == q
  {}

  /** The edges of one record that are found by a search. */
  method FoundEdges(nodes: seq<Node>, matchedExit: array<nat>, index: nat) returns (edges: seq<ModelEdge>)
    requires index < |nodes| == matchedExit.Length && |nodes| < SIZE_MAX && MatchedInRange(matchedExit[..])
    requires IsResource(nodes[index])
    ensures EdgesOf(nodes, matchedExit[..], edges, index, 0)
  {
    hide Surrounds, Ends, Matches, MatchedInRange, IsBirth;
    edges := [];
    var call := FindEnclosingCall(nodes, matchedExit, index);
    if call != SIZE_MAX {
      edges := edges + [ModelEdge(CallCausedEvent, call, index)];
    }
    var death := FindLifetimeEnd(nodes, index);
    if death != SIZE_MAX {
      edges := edges + [ModelEdge(ResourceLifetime, index, death)];
    }
    forall e | ResourceEdge(nodes, matchedExit[..], e) && Owner(e) == index && e.kind == CallCausedEvent
      ensures e in edges
    {
      EnclosingUnique(nodes, matchedExit[..], nodes[index], call, e.from);
    }
    forall e | ResourceEdge(nodes, matchedExit[..], e) && Owner(e) == index && e.kind == ResourceLifetime
      ensures e in edges
    {
      EndUnique(nodes, index, death, e.to);
    }
  }

  method BuildResourceEdges(nodes: seq<Node>, matchedExit: array<nat>) returns (edges: seq<ModelEdge>)
    requires |nodes| == matchedExit.Length && |nodes| < SIZE_MAX && MatchedInRange(matchedExit[..])
    ensures Distinct(edges)
    ensures forall e :: e in edges <==> ResourceEdge(nodes, matchedExit[..], e)
  {
    edges := [];
    var index := 0;
    while index < |nodes|
      invariant index <= |nodes| && EdgesUpTo(nodes, matchedExit[..], edges, index)
    {
      if IsResource(nodes[index]) {
        var added := FoundEdges(nodes, matchedExit, index);
        if nodes[index].kind == ForkRecord || nodes[index].kind == SpawnRecord {
          var child := 0;
          while child < |nodes|
            invariant child <= |nodes| && EdgesOf(nodes, matchedExit[..], added, index, child)
          {
            if nodes[child].pid == nodes[index].childPid {
              added := added + [ModelEdge(ProcessChildEvent, index, child)];
            }
            child := child + 1;
          }
        }
        EdgesJoin(nodes, matchedExit[..], edges, added, index);
        edges := edges + added;
      }
      index := index + 1;
    }
  }

  lemma {:induction false} MatchesInRange(nodes: seq<Node>, k: nat)
    requires k <= |nodes|
    ensures MatchedInRange(Pass(nodes, k).matched)
  {
    if k > 0 {
      MatchesInRange(nodes, k - 1);
    }
  }

  /** A call edge or a resource edge of the finished model. */
  ghost predicate BuiltEdge(nodes: seq<Node>, e: ModelEdge) {
    var calls := Pass(nodes, |nodes|);
    e in calls.edges || ResourceEdge(nodes, calls.matched, e)
  }

  // ---------- What the edges mean ----------

  lemma {:induction false} SurroundsIsAround(nodes: seq<Node>, matched: seq<nat>, edges: seq<ModelEdge>, c: nat, r: nat)
    requires |nodes| == |matched| && |nodes| < SIZE_MAX && r < |nodes| && c < |nodes| && MatchedInRange(matched)
    requires ExitsAreReturns(edges, matched)
    ensures Surrounds(nodes, matched, c, nodes[r]) <==> IsAround(nodes, edges, c, r)
  {
    if matched[c] != SIZE_MAX {
      assert ModelEdge(CallReturn, c, matched[c]) in edges;
    }
  }

  lemma {:induction false} EnclosingIsMadeIn(nodes: seq<Node>, matched: seq<nat>, edges: seq<ModelEdge>, c: nat, r: nat)
    requires |nodes| == |matched| && |nodes| < SIZE_MAX && r < |nodes| && MatchedInRange(matched)
    requires ExitsAreReturns(edges, matched)
    ensures IsResource(nodes[r]) && c != SIZE_MAX && IsEnclosing(nodes, matched, nodes[r], |nodes|, c)
            <==> MadeIn(nodes, edges, c, r)
  {
    hide Surrounds, IsAround, ExitsAreReturns, MatchedInRange;
    forall d: nat
      ensures d < |nodes| ==> (Surrounds(nodes, matched, d, nodes[r]) <==> IsAround(nodes, edges, d, r))
      ensures IsAround(nodes, edges, d, r) ==> d < |nodes|
    {
      AroundInRange(nodes, edges, d, r);
      if d < |nodes| {
        SurroundsIsAround(nodes, matched, edges, d, r);
      }
    }
  }

  lemma {:induction false} AroundInRange(nodes: seq<Node>, edges: seq<ModelEdge>, c: nat, r: nat)
    ensures IsAround(nodes, edges, c, r) ==> c < |nodes|
  {}

  lemma {:induction false} EndsIsEndsLife(nodes: seq<Node>, i: nat, j: nat)
    requires i < |nodes| && j < |nodes|
    ensures IsBirth(nodes[i]) && Ends(nodes[i], nodes[j]) <==> EndsLife(nodes, i, j)
    ensures IsBirth(nodes[i]) ==> IsResource(nodes[i])
  {}

  lemma {:induction false} EndIsLivesTo(nodes: seq<Node>, i: nat, r: nat)
    requires i < |nodes| && |nodes| < SIZE_MAX
    ensures IsResource(nodes[i]) && IsBirth(nodes[i]) && r != SIZE_MAX && IsLifetimeEnd(nodes, i, |nodes|, r)
            <==> LivesTo(nodes, i, r)
  {
    hide IsBirth, IsResource, Ends, EndsLife;
    forall j: nat
      ensures j < |nodes| ==> (IsBirth(nodes[i]) && Ends(nodes[i], nodes[j]) <==> EndsLife(nodes, i, j))
      ensures EndsLife(nodes, i, j) ==> j < |nodes|
      ensures IsBirth(nodes[i]) ==> IsResource(nodes[i])
    {
      LifeInRange(nodes, i, j);
      if j < |nodes| {
        EndsIsEndsLife(nodes, i, j);
      }
      EndsIsEndsLife(nodes, i, i);
    }
  }

  lemma {:induction false} LifeInRange(nodes: seq<Node>, i: nat, j: nat)
    ensures EndsLife(nodes, i, j) ==> i < |nodes| && j < |nodes|
  {}

  lemma {:induction false} ResourceEdgeMeans(nodes: seq<Node>, matched: seq<nat>, edges: seq<ModelEdge>, e: ModelEdge)
    requires |nodes| == |matched| && |nodes| < SIZE_MAX && MatchedInRange(matched) && ExitsAreReturns(edges, matched)
    requires !IsCallEdge(e)
    ensures ResourceEdge(nodes, matched, e) <==> Means(nodes, edges, e)
  {
    hide ExitsAreReturns, MatchedInRange, IsEnclosing, IsLifetimeEnd, MadeIn, LivesTo, IsBirth, IsResource;
    MeaningInRange(nodes, edges, e);
    if e.to < |nodes| {
      EnclosingIsMadeIn(nodes, matched, edges, e.from, e.to);
    }
    if e.from < |nodes| {
      EndIsLivesTo(nodes, e.from, e.to);
    }
  }

  lemma {:induction false} MeaningInRange(nodes: seq<Node>, edges: seq<ModelEdge>, e: ModelEdge)
    requires !IsCallEdge(e)
    ensures Means(nodes, edges, e) ==> e.from < |nodes| && e.to < |nodes|
  {}

  lemma {:induction false} SameReturns(a: seq<ModelEdge>, b: seq<ModelEdge>, matched: seq<nat>)
    requires ExitsAreReturns(a, matched) && forall e :: IsCallEdge(e) ==> (e in a <==> e in b)
    ensures ExitsAreReturns(b, matched)
  {
    forall c: nat, i: nat | c < |matched| && i != SIZE_MAX
      ensures matched[c] == i <==> ModelEdge(CallReturn, c, i) in b
    {
      assert IsCallEdge(ModelEdge(CallReturn, c, i));
    }
  }

  /** Call edges and resource edges together are exactly what they mean. */
  lemma {:induction false} BuiltMean(nodes: seq<Node>, calls: seq<ModelEdge>, matched: seq<nat>, edges: seq<ModelEdge>)
    requires |nodes| == |matched| && |nodes| < SIZE_MAX && MatchedInRange(matched) && ExitsAreReturns(calls, matched)
    requires CallsMatched(nodes, calls) && forall e :: e in calls ==> IsCallEdge(e)
    requires forall e :: e in edges <==> e in calls || ResourceEdge(nodes, matched, e)
    ensures EdgesMean(nodes, edges)
  {
    hide ExitsAreReturns, MatchedInRange, CallsMatched, ResourceEdge, Means;
    forall e | IsCallEdge(e)
      ensures !ResourceEdge(nodes, matched, e)
    {
      NoResourceEdge(nodes, matched, e);
    }
    OtherEdgesDoNotCount(nodes, calls, edges);
    SameReturns(calls, edges, matched);
    forall e
      ensures e in edges <==> Means(nodes, edges, e)
    {
      if IsCallEdge(e) {
        CallEdgeMeans(nodes, edges, e);
      } else {
        ResourceEdgeMeans(nodes, matched, edges, e);
      }
    }
  }

  lemma {:induction false} NoResourceEdge(nodes: seq<Node>, matched: seq<nat>, e: ModelEdge)
    requires |nodes| == |matched| && IsCallEdge(e)
    ensures !ResourceEdge(nodes, matched, e)
  {}

  lemma {:induction false} CallEdgeMeans(nodes: seq<Node>, edges: seq<ModelEdge>, e: ModelEdge)
    requires IsCallEdge(e) && CallsMatched(nodes, edges)
    ensures e in edges <==> Means(nodes, edges, e)
  {}

  /** The edges of a finished model: call edges, then resource edges. All their
      ends are nodes, which is what build_causal_order asks of them. */
  method BuildEdges(nodes: seq<Node>) returns (edges: seq<ModelEdge>)
    requires |nodes| < SIZE_MAX
    ensures var calls := Pass(nodes, |nodes|);
            calls.edges <= edges
            && (forall e :: e in edges[|calls.edges|..] <==> ResourceEdge(nodes, calls.matched, e))
            && Distinct(edges[|calls.edges|..])
    ensures forall e :: e in edges <==> BuiltEdge(nodes, e)
    ensures CausalSpec.InRange(edges, |nodes|)
    ensures EdgesMean(nodes, edges)
  {
    var calls, matchedExit := BuildCallEdges(nodes);
    MatchesInRange(nodes, |nodes|);
    EdgesAreMatchingAndForest(nodes, |nodes|);
    assert CallState(matchedExit[..], calls).matched == Pass(nodes, |nodes|).matched;
    var resources := BuildResourceEdges(nodes, matchedExit);
    edges := calls + resources;
    assert edges[|calls|..] == resources;
    assert forall e :: e in edges <==> e in calls || e in resources;
    forall k | 0 <= k < |edges|
      ensures edges[k].from < |nodes| && edges[k].to < |nodes|
    {
      assert edges[k] in (if k < |calls| then calls else resources);
    }
    BuiltMean(nodes, calls, matchedExit[..], edges);
  }
}
