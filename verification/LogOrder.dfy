/** When the causal order of a log is the order of the log, and logs where it
    is not. */
module LogOrder {
  import opened CausalCycles
  import opened CausalSpec
  import opened Events
  import opened Graphs
  import opened LogArcs
  import opened Schedules

  // ---------- Logs in order ----------

  predicate ContextsRise(nodes: seq<Node>) {
    forall a, b :: 0 <= a < b < |nodes| && SameContext(nodes[a], nodes[b]) ==> nodes[a].sequence < nodes[b].sequence
  }

  lemma {:induction false} RisingIsNumbered(nodes: seq<Node>)
    requires ContextsRise(nodes)
    ensures ContextsNumbered(nodes)
  {}

  predicate ProcessesRise(nodes: seq<Node>) {
    forall a, b :: 0 <= a < b < |nodes| && nodes[a].pid == nodes[b].pid ==> nodes[a].sequence <= nodes[b].sequence
  }

  /** No record of a child comes before the record of its creation. */
  predicate ChildrenFollow(nodes: seq<Node>) {
    forall a, b :: 0 <= a < b < |nodes| ==> !IsParentOf(nodes[b], nodes[a])
  }

  ghost predicate Forward(g: set<(nat, nat)>) {
    forall u, v :: (u, v) in g ==> u < v
  }

  lemma {:induction false} IdentityIsPermutation(n: nat)
    ensures Permutation(Identity(n), n)
  {
    forall v: nat | v < n
      ensures v in Identity(n)
    {
      assert Identity(n)[v] == v;
    }
  }

  /** The log's own order is topological exactly when all arcs go forward. */
  lemma {:induction false} IdentityIffForward(g: set<(nat, nat)>, n: nat)
    requires forall u, v :: (u, v) in g ==> u < n && v < n
    ensures Topological(g, n, Identity(n)) <==> Forward(g)
  {
    IdentityIsPermutation(n);
    if Topological(g, n, Identity(n)) {
      forall u, v | (u, v) in g
        ensures u < v
      {
        assert Identity(n)[u] == u && Identity(n)[v] == v;
      }
    }
  }

  /** Then it is also the least one. */
  lemma {:induction false} NoneBeforeIdentity(n: nat, s: seq<nat>)
    requires Permutation(s, n) && LexicographicallyAtMost(s, Identity(n))
    ensures s == Identity(n)
  {
    if s != Identity(n) {
      var k: nat :| k < n && s[..k] == Identity(n)[..k] && s[k] < Identity(n)[k];
      SmallerRepeats(n, s, k);
    }
  }

  lemma {:induction false} SmallerRepeats(n: nat, s: seq<nat>, k: nat)
    requires k < n == |s| && s[..k] == Identity(n)[..k] && s[k] < k
    ensures !NoRepeats(s)
  {
    var v := s[k];
    assert s[..k][v] == s[v] && Identity(n)[..k][v] == v;
  }

  /** What build_causal_order returns when it finds no cycle. */
  ghost predicate LeastOrder(g: set<(nat, nat)>, n: nat, s: seq<nat>) {
    Topological(g, n, s) && forall t :: Topological(g, n, t) ==> LexicographicallyAtMost(s, t)
  }

  lemma {:induction false} LeastIffIdentity(g: set<(nat, nat)>, n: nat, s: seq<nat>)
    requires Topological(g, n, Identity(n))
    ensures LeastOrder(g, n, s) <==> s == Identity(n)
  {
    if LeastOrder(g, n, s) {
      NoneBeforeIdentity(n, s);
    }
    if s == Identity(n) {
      forall t | Topological(g, n, t)
        ensures LexicographicallyAtMost(s, t)
      {
        IdentityIsLeast(n, t);
      }
    }
  }

  lemma {:induction false} IdentityIsLeast(n: nat, t: seq<nat>)
    requires Permutation(t, n)
    ensures LexicographicallyAtMost(Identity(n), t)
  {
    var s := Identity(n);
    if s != t {
      var k := FirstDifference(s, t);
      if t[k] < k {
        SmallerRepeats(n, t, k);
      }
    }
  }

  // ---------- Logs in which children follow ----------

  lemma {:induction false} ArcsInRange(nodes: seq<Node>, g: set<(nat, nat)>)
    requires KindsKnown(nodes, g)
    ensures forall u, v :: (u, v) in g ==> u < |nodes| && v < |nodes|
  {}

  /** All arcs go forward exactly when no child's record precedes its creation. */
  lemma {:induction false} ForwardIffChildrenFollow(nodes: seq<Node>, g: set<(nat, nat)>)
    requires ProcessesRise(nodes) && KindsKnown(nodes, g)
    ensures Forward(g) <==> ChildrenFollow(nodes)
  {
    if Forward(g) {
      forall a, b | 0 <= a < b < |nodes|
        ensures !IsParentOf(nodes[b], nodes[a])
      {
        assert CreationArc(nodes, b, a) ==> (b, a) in g;
      }
    }
    if ChildrenFollow(nodes) {
      forall u, v | (u, v) in g
        ensures u < v
      {
        assert LocalArc(nodes, u, v) || CreationArc(nodes, u, v);
      }
    }
  }

  /** With numbers that follow the log the causal order is the order of the log
      exactly when no child's record precedes its creation; there is then no
      cycle and no other least order. */
  lemma {:induction false} LogOrderIsCausal(nodes: seq<Node>, edges: seq<ModelEdge>)
    requires ContextsRise(nodes) && ProcessesRise(nodes) && |nodes| < SIZE_MAX && Built(nodes, edges)
    ensures LeastOrder(CausalArcs(nodes, edges), |nodes|, Identity(|nodes|)) <==> ChildrenFollow(nodes)
    ensures ChildrenFollow(nodes) ==>
              !Cyclic(CausalArcs(nodes, edges))
              && forall s :: LeastOrder(CausalArcs(nodes, edges), |nodes|, s) <==> s == Identity(|nodes|)
  {
    hide CausalArcs, Built, ContextsRise, ContextsNumbered, ProcessesRise, ChildrenFollow, KindsKnown, Topological,
         Cyclic, Forward;
    var g, n := CausalArcs(nodes, edges), |nodes|;
    RisingIsNumbered(nodes);
    KindsOfCausalArcs(nodes, edges);
    ArcsInRange(nodes, g);
    ForwardIffChildrenFollow(nodes, g);
    IdentityIffForward(g, n);
    if LeastOrder(g, n, Identity(n)) {
      LeastIsTopological(g, n, Identity(n));
    }
    if ChildrenFollow(nodes) {
      TopologicalMeansAcyclic(g, n, Identity(n));
      forall s
        ensures LeastOrder(g, n, s) <==> s == Identity(n)
      {
        LeastIffIdentity(g, n, s);
      }
    }
  }

  lemma {:induction false} LeastIsTopological(g: set<(nat, nat)>, n: nat, s: seq<nat>)
    requires LeastOrder(g, n, s)
    ensures Topological(g, n, s)
  {}

  // ---------- Logs out of order ----------

  /** A child's record before the fork that created it makes no cycle, but the
      causal order is not the order of the log. */
  lemma {:induction false} FastChildIsOrdered(nodes: seq<Node>, edges: seq<ModelEdge>)
    requires |nodes| == 2 && nodes[1].kind == ForkRecord && nodes[1].childPid == nodes[0].pid
    requires nodes[0].pid != nodes[1].pid && !IsCreator(nodes[0]) && Built(nodes, edges)
    ensures !Cyclic(CausalArcs(nodes, edges))
    ensures !LeastOrder(CausalArcs(nodes, edges), 2, Identity(2))
  {
    hide CausalArcs, Built;
    CyclicExactly(nodes, edges);
    LogOrderIsCausal(nodes, edges);
    if Cyclic(Creates(nodes)) {
      var u :| OnCycle(Creates(nodes), u);
      OnCycleIffSuccessorReaches(Creates(nodes), u);
    }
  }

  /** A fork that names its own process as the child, after another record of
      its context, makes a cycle. */
  lemma {:induction false} OwnChildIsCyclic(nodes: seq<Node>, edges: seq<ModelEdge>)
    requires |nodes| == 2 && SameContext(nodes[0], nodes[1]) && nodes[0].sequence < nodes[1].sequence
    requires nodes[1].kind == ForkRecord && nodes[1].childPid == nodes[1].pid && Built(nodes, edges)
    ensures Cyclic(CausalArcs(nodes, edges))
  {
    hide CausalArcs, Built;
    assert EarlierInContext(nodes, 0, 1) && OwnChildLate(nodes, 1);
    CyclicExactly(nodes, edges);
  }

  /** Two forks that name each other's process make a cycle. */
  lemma {:induction false} CrossedForksAreCyclic(nodes: seq<Node>, edges: seq<ModelEdge>)
    requires |nodes| == 2 && nodes[0].kind == ForkRecord && nodes[1].kind == ForkRecord
    requires nodes[0].pid != nodes[1].pid && nodes[0].childPid == nodes[1].pid && nodes[1].childPid == nodes[0].pid
    requires Built(nodes, edges)
    ensures Cyclic(CausalArcs(nodes, edges))
  {
    hide CausalArcs, Built;
    var g := Creates(nodes);
    assert (0, 1) in g && (1, 0) in g;
    ReachesSelf(g, 0);
    ReachesStep(g, 1, 0, 0);
    ReachesStep(g, 0, 1, 0);
    assert OnCycle(g, 0);
    CyclicExactly(nodes, edges);
  }
}
