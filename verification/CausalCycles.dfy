/** When the causal order of a log is cyclic: exactly when its creating records
    create each other's processes in a circle, or one of them names its own
    process as the child and is not the first record of its context. */
module CausalCycles {
  import opened CausalSpec
  import opened ContextOrder
  import opened Events
  import opened Graphs
  import opened LogArcs

  // ---------- Creating records ----------

  /** One creating record made the process of another. */
  ghost function Creates(nodes: seq<Node>): set<(nat, nat)> {
    set f: nat, h: nat |
      f < |nodes| && h < |nodes| && IsCreator(nodes[h]) && CreationArc(nodes, f, h) :: (f, h)
  }

  predicate EarlierInContext(nodes: seq<Node>, y: nat, f: nat) {
    && y < |nodes| && f < |nodes| && SameContext(nodes[y], nodes[f])
    && nodes[y].sequence < nodes[f].sequence
  }

  /** f names its own process as the child and is not the first of its context. */
  ghost predicate OwnChildLate(nodes: seq<Node>, f: nat) {
    f < |nodes| && IsParentOf(nodes[f], nodes[f]) && exists y: nat :: EarlierInContext(nodes, y, f)
  }

  // ---------- Walks ----------

  /** v is reached from u by local arcs alone, at least one. */
  ghost predicate LeadsLocally(nodes: seq<Node>, u: nat, v: nat) {
    && u < |nodes| && v < |nodes|
    && nodes[u].pid == nodes[v].pid && nodes[u].sequence < nodes[v].sequence
    && (IsCreator(nodes[v]) ==> exists y: nat :: EarlierInContext(nodes, y, v))
  }

  lemma {:induction false} LocalLeads(nodes: seq<Node>, u: nat, v: nat)
    requires LocalArc(nodes, u, v)
    ensures LeadsLocally(nodes, u, v)
  {
    assert IsCreator(nodes[v]) ==> EarlierInContext(nodes, u, v);
  }

  lemma {:induction false} LocalThenLocally(nodes: seq<Node>, u: nat, v: nat, w: nat)
    requires LocalArc(nodes, u, v) && LeadsLocally(nodes, v, w)
    ensures LeadsLocally(nodes, u, w)
  {}

  /** A walk is local, or has a last creation after which it is. */
  lemma {:induction false} SplitWalk(nodes: seq<Node>, g: set<(nat, nat)>, p: seq<nat>) returns (found: bool, k: nat)
    requires KindsKnown(nodes, g) && IsWalk(g, p) && |p| >= 2
    ensures !found ==> LeadsLocally(nodes, p[0], p[|p| - 1])
    ensures found ==>
              k + 1 < |p| && CreationArc(nodes, p[k], p[k + 1])
              && (p[k + 1] == p[|p| - 1] || LeadsLocally(nodes, p[k + 1], p[|p| - 1]))
    decreases |p|
  {
    hide LeadsLocally, LocalArc, CreationArc;
    var last := p[|p| - 1];
    assert (p[0], p[1]) in g;
    found, k := false, 0;
    if |p| > 2 {
      SubWalk(g, p, 1, |p|);
      found, k := SplitWalk(nodes, g, p[1..|p|]);
      k := k + 1;
    }
    if !found {
      if LocalArc(nodes, p[0], p[1]) {
        if |p| == 2 {
          LocalLeads(nodes, p[0], p[1]);
        } else {
          LocalThenLocally(nodes, p[0], p[1], last);
        }
      } else {
        found, k := true, 0;
      }
    }
  }

  lemma {:induction false} WalkReaches(g: set<(nat, nat)>, p: seq<nat>, a: nat, b: nat)
    requires IsWalk(g, p) && a <= b < |p|
    ensures Reaches(g, p[a], p[b])
  {
    SubWalk(g, p, a, b + 1);
  }

  /** What lies on a closed walk lies on a cycle. */
  lemma {:induction false} OnClosedWalk(g: set<(nat, nat)>, p: seq<nat>, k: nat)
    requires IsWalk(g, p) && k + 1 < |p| && p[0] == p[|p| - 1]
    ensures OnCycle(g, p[k])
  {
    hide OnCycle, Reaches;
    WalkReaches(g, p, k + 1, |p| - 1);
    WalkReaches(g, p, 0, k);
    ReachesTrans(g, p[k + 1], p[0], p[k]);
    assert (p[k], p[k + 1]) in g;
    ReachesStep(g, p[k], p[k + 1], p[k]);
  }

  // ---------- Creating records on cycles ----------

  ghost function Returning(nodes: seq<Node>, g: set<(nat, nat)>): set<nat> {
    set f: nat | f < |nodes| && IsCreator(nodes[f]) && OnCycle(g, f)
  }

  lemma {:induction false} CycleHasCreation(nodes: seq<Node>, g: set<(nat, nat)>)
    requires KindsKnown(nodes, g) && Cyclic(g)
    ensures Returning(nodes, g) != {}
  {
    hide KindsKnown;
    var u: nat :| OnCycle(g, u);
    var p :| WalkBetween(g, p, u, u) && |p| >= 2;
    var found, k := SplitWalk(nodes, g, p);
    if found {
      OnClosedWalk(g, p, k);
      assert p[k] in Returning(nodes, g);
    }
  }

  lemma {:induction false} ReturningHasParent(nodes: seq<Node>, g: set<(nat, nat)>, f: nat)
    requires KindsKnown(nodes, g) && f in Returning(nodes, g)
    ensures OwnChildLate(nodes, f) || HasPredecessorIn(Creates(nodes), Returning(nodes, g), f)
  {
    hide KindsKnown;
    var p :| WalkBetween(g, p, f, f) && |p| >= 2;
    var found, k := SplitWalk(nodes, g, p);
    if found {
      OnClosedWalk(g, p, k);
      var h := p[k];
      assert h in Returning(nodes, g);
      if h != f {
        assert (h, f) in Creates(nodes);
      }
    }
  }

  lemma {:induction false} CyclicMeansAncestry(nodes: seq<Node>, g: set<(nat, nat)>)
    requires KindsKnown(nodes, g) && Cyclic(g)
    requires forall f :: !OwnChildLate(nodes, f)
    ensures Cyclic(Creates(nodes))
  {
    hide KindsKnown, OwnChildLate, Creates, Returning, HasPredecessorIn, Cyclic;
    var s := Returning(nodes, g);
    CycleHasCreation(nodes, g);
    forall f | f in s
      ensures HasPredecessorIn(Creates(nodes), s, f)
    {
      ReturningHasParent(nodes, g, f);
    }
    AllHavePredecessors(Creates(nodes), s);
  }

  // ---------- The exact condition ----------

  lemma {:induction false} CreatesAreArcs(nodes: seq<Node>, g: set<(nat, nat)>)
    requires KindsKnown(nodes, g)
    ensures Creates(nodes) <= g
  {}

  lemma {:induction false} OwnChildLateIsCyclic(nodes: seq<Node>, edges: seq<ModelEdge>, f: nat)
    requires Built(nodes, edges) && OwnChildLate(nodes, f)
    ensures Cyclic(CausalArcs(nodes, edges))
  {
    hide Built, Reaches;
    var g := CausalArcs(nodes, edges);
    var y: nat :| EarlierInContext(nodes, y, f);
    LowerIsReached(nodes, y, f);
    ReachesMonotone(ChainArcs(nodes), g, y, f);
    CreationIsArc(nodes, edges, f, y);
    ReachesStep(g, f, y, f);
  }

  /** The arcs of a built model with numbered contexts are cyclic
      exactly when its creating records are, or one of them is a late record
      that names its own process as the child. */
  lemma {:induction false} CyclicExactly(nodes: seq<Node>, edges: seq<ModelEdge>)
    requires ContextsNumbered(nodes) && |nodes| < SIZE_MAX && Built(nodes, edges)
    ensures Cyclic(CausalArcs(nodes, edges)) <==> Cyclic(Creates(nodes)) || exists f :: OwnChildLate(nodes, f)
  {
    hide ContextsNumbered, Built, KindsKnown, CausalArcs, Creates, OwnChildLate, Cyclic;
    var g := CausalArcs(nodes, edges);
    KindsOfCausalArcs(nodes, edges);
    if Cyclic(g) && forall f :: !OwnChildLate(nodes, f) {
      CyclicMeansAncestry(nodes, g);
    }
    if Cyclic(Creates(nodes)) {
      CreatesAreArcs(nodes, g);
      CyclicMonotone(Creates(nodes), g);
    }
    if f :| OwnChildLate(nodes, f) {
      OwnChildLateIsCyclic(nodes, edges, f);
    }
  }
}
