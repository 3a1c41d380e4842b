/** The causal order told from the records: model edges go forward, and the
    records of a context follow their sequence numbers, ties in log order. */
module ContextOrder {
  import opened CausalSpec
  import opened Events
  import opened FiniteSets
  import opened Graphs

  // ---------- Orders of the records ----------

  predicate OneContext(a: Node, b: Node) {
    a.pid == b.pid && a.context == b.context
  }

  /** A smaller number, or the same number and an earlier place in the log. */
  predicate Lower(nodes: seq<Node>, u: nat, v: nat)
    requires u < |nodes| && v < |nodes|
  {
    nodes[u].sequence < nodes[v].sequence || (nodes[u].sequence == nodes[v].sequence && u < v)
  }

  ghost predicate EdgesFollow(edges: seq<ModelEdge>, s: seq<nat>) {
    forall e, i, j :: e in edges && 0 <= i < j < |s| ==> !(e.from == s[j] && e.to == s[i])
  }

  ghost predicate ContextsFollow(nodes: seq<Node>, s: seq<nat>) {
    forall i, j ::
      0 <= i < j < |s| && s[i] < |nodes| && s[j] < |nodes| && OneContext(nodes[s[i]], nodes[s[j]]) ==>
        Lower(nodes, s[i], s[j])
  }

  /** Every node once, edges forward, contexts by number. */
  ghost predicate Causal(nodes: seq<Node>, edges: seq<ModelEdge>, s: seq<nat>) {
    Permutation(s, |nodes|) && EdgesFollow(edges, s) && ContextsFollow(nodes, s)
  }

  // ---------- The chain of a context ----------

  ghost predicate IsBetween(nodes: seq<Node>, u: nat, k: nat, v: nat)
    requires u < |nodes| && v < |nodes|
  {
    k < |nodes| && OneContext(nodes[u], nodes[k]) && Lower(nodes, u, k) && Lower(nodes, k, v)
  }

  ghost function Between(nodes: seq<Node>, u: nat, v: nat): set<nat>
    requires u < |nodes| && v < |nodes|
  {
    set k: nat | k < |nodes| && IsBetween(nodes, u, k, v)
  }

  lemma {:induction false} FewerBetween(nodes: seq<Node>, u: nat, k: nat, v: nat)
    requires u < |nodes| && v < |nodes| && OneContext(nodes[u], nodes[v]) && IsBetween(nodes, u, k, v)
    ensures |Between(nodes, u, k)| < |Between(nodes, u, v)| && |Between(nodes, k, v)| < |Between(nodes, u, v)|
  {
    SubsetSize(Between(nodes, u, k), Between(nodes, u, v) - {k});
    SubsetSize(Between(nodes, k, v), Between(nodes, u, v) - {k});
  }

  lemma {:induction false} ChainIsLower(nodes: seq<Node>, u: nat, v: nat)
    ensures (u, v) in ChainArcs(nodes) ==>
              u < |nodes| && v < |nodes| && OneContext(nodes[u], nodes[v]) && Lower(nodes, u, v)
  {}

  lemma {:induction false} NextInContext(nodes: seq<Node>, u: nat, v: nat)
    requires u < |nodes| && v < |nodes| && OneContext(nodes[u], nodes[v]) && Lower(nodes, u, v)
    requires forall k :: !IsBetween(nodes, u, k, v)
    ensures (u, v) in ChainArcs(nodes)
  {
    forall k: nat | Together(nodes, u, k)
      ensures !(Before(nodes, u, k) && Before(nodes, k, v))
    {
      assert !IsBetween(nodes, u, k, v);
    }
  }

  lemma {:induction false} LowerIsReached(nodes: seq<Node>, u: nat, v: nat)
    requires u < |nodes| && v < |nodes| && OneContext(nodes[u], nodes[v]) && Lower(nodes, u, v)
    ensures Reaches(ChainArcs(nodes), u, v)
    decreases |Between(nodes, u, v)|
  {
    hide Between, ChainArcs, Reaches;
    if k: nat :| IsBetween(nodes, u, k, v) {
      FewerBetween(nodes, u, k, v);
      LowerIsReached(nodes, u, k);
      LowerIsReached(nodes, k, v);
      ReachesTrans(ChainArcs(nodes), u, k, v);
    } else {
      NextInContext(nodes, u, v);
      ReachesSelf(ChainArcs(nodes), v);
      ReachesStep(ChainArcs(nodes), u, v, v);
    }
  }

  ghost function NotBefore(nodes: seq<Node>, u: nat): set<nat>
    requires u < |nodes|
  {
    set v: nat | v < |nodes| && OneContext(nodes[u], nodes[v]) && (v == u || Lower(nodes, u, v))
  }

  /** The chain leads from a record to another exactly when both are of one
      context and the other has the larger number, or the same and came later. */
  lemma {:induction false} ChainFollowsNumbers(nodes: seq<Node>, u: nat, v: nat)
    requires u < |nodes| && v < |nodes| && u != v
    ensures Reaches(ChainArcs(nodes), u, v) <==> OneContext(nodes[u], nodes[v]) && Lower(nodes, u, v)
  {
    hide ChainArcs, Reaches;
    if Reaches(ChainArcs(nodes), u, v) {
      forall a, b | a in NotBefore(nodes, u) && (a, b) in ChainArcs(nodes)
        ensures b in NotBefore(nodes, u)
      {
        ChainIsLower(nodes, a, b);
      }
      ClosedSetHoldsReachable(ChainArcs(nodes), NotBefore(nodes, u), u, v);
    }
    if OneContext(nodes[u], nodes[v]) && Lower(nodes, u, v) {
      LowerIsReached(nodes, u, v);
    }
  }

  // ---------- Topological orders ----------

  lemma {:induction false} NothingReachesBack(g: set<(nat, nat)>, n: nat, s: seq<nat>, i: nat, j: nat)
    requires Topological(g, n, s) && i < j < n && forall u, v :: (u, v) in g ==> u < n && v < n
    ensures !Reaches(g, s[j], s[i])
  {
    if Reaches(g, s[j], s[i]) {
      var suffix := set k | j <= k < n :: s[k];
      forall a, b | a in suffix && (a, b) in g
        ensures b in suffix
      {
        assert b in s;
        var k :| j <= k < n && s[k] == a;
        var l :| 0 <= l < n && s[l] == b;
        assert k < l;
      }
      ClosedSetHoldsReachable(g, suffix, s[j], s[i]);
      assert false;
    }
  }

  lemma {:induction false} ArcsAreNodes(nodes: seq<Node>, edges: seq<ModelEdge>)
    requires InRange(edges, |nodes|)
    ensures forall u, v :: (u, v) in CausalArcs(nodes, edges) ==> u < |nodes| && v < |nodes|
  {}

  lemma {:induction false} TopologicalFollows(nodes: seq<Node>, edges: seq<ModelEdge>, s: seq<nat>, i: nat, j: nat)
    requires InRange(edges, |nodes|) && Topological(CausalArcs(nodes, edges), |nodes|, s) && i < j < |nodes|
    ensures s[i] < |nodes| && s[j] < |nodes| && (s[j], s[i]) !in EdgeArcs(edges)
    ensures OneContext(nodes[s[i]], nodes[s[j]]) ==> Lower(nodes, s[i], s[j])
  {
    hide ChainArcs, EdgeArcs, Reaches;
    assert s[i] in s && s[j] in s && s[i] != s[j];
    if OneContext(nodes[s[i]], nodes[s[j]]) && !Lower(nodes, s[i], s[j]) {
      ChainFollowsNumbers(nodes, s[j], s[i]);
      ReachesMonotone(ChainArcs(nodes), CausalArcs(nodes, edges), s[j], s[i]);
      ArcsAreNodes(nodes, edges);
      NothingReachesBack(CausalArcs(nodes, edges), |nodes|, s, i, j);
      assert false;
    }
  }

  lemma {:induction false} TopologicalIsCausal(nodes: seq<Node>, edges: seq<ModelEdge>, s: seq<nat>)
    requires InRange(edges, |nodes|) && Topological(CausalArcs(nodes, edges), |nodes|, s)
    ensures Causal(nodes, edges, s)
  {
    hide CausalArcs, InRange, OneContext, Lower;
    forall i: nat, j: nat | i < j < |s|
      ensures s[i] < |nodes| && s[j] < |nodes| && (s[j], s[i]) !in EdgeArcs(edges) && s[j] != s[i]
      ensures OneContext(nodes[s[i]], nodes[s[j]]) ==> Lower(nodes, s[i], s[j])
    {
      TopologicalFollows(nodes, edges, s, i, j);
    }
  }

  lemma {:induction false} CausalIsTopological(nodes: seq<Node>, edges: seq<ModelEdge>, s: seq<nat>)
    requires Causal(nodes, edges, s)
    ensures Topological(CausalArcs(nodes, edges), |nodes|, s)
  {
    hide ChainArcs;
    forall i: nat, j: nat | i <= j < |nodes|
      ensures (s[j], s[i]) !in CausalArcs(nodes, edges)
    {
      ChainIsLower(nodes, s[j], s[i]);
    }
  }

  /** The topological orders of the arcs are exactly the causal orders. */
  lemma {:induction false} TopologicalIffCausal(nodes: seq<Node>, edges: seq<ModelEdge>, s: seq<nat>)
    requires InRange(edges, |nodes|)
    ensures Topological(CausalArcs(nodes, edges), |nodes|, s) <==> Causal(nodes, edges, s)
  {
    hide Topological, Causal;
    if Topological(CausalArcs(nodes, edges), |nodes|, s) {
      TopologicalIsCausal(nodes, edges, s);
    }
    if Causal(nodes, edges, s) {
      CausalIsTopological(nodes, edges, s);
    }
  }

  /** The causal orders are the topological ones; a cycle leaves none. */
  lemma {:induction false} OrdersAreCausal(nodes: seq<Node>, edges: seq<ModelEdge>)
    requires InRange(edges, |nodes|)
    ensures forall s :: Topological(CausalArcs(nodes, edges), |nodes|, s) <==> Causal(nodes, edges, s)
    ensures Cyclic(CausalArcs(nodes, edges)) ==> forall s :: !Causal(nodes, edges, s)
  {
    hide Topological, Causal, Cyclic, CausalArcs, InRange;
    forall s
      ensures Topological(CausalArcs(nodes, edges), |nodes|, s) <==> Causal(nodes, edges, s)
      ensures Causal(nodes, edges, s) ==> !Cyclic(CausalArcs(nodes, edges))
    {
      TopologicalIffCausal(nodes, edges, s);
      if Causal(nodes, edges, s) {
        ArcsAreNodes(nodes, edges);
        TopologicalMeansAcyclic(CausalArcs(nodes, edges), |nodes|, s);
      }
    }
  }
}
