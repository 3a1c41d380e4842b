/** What the causal order must be: the arcs it respects, topological and
    greedy orders, and the per-context chain that a sort yields. */
module CausalSpec {
  import opened Events
  import opened FiniteSets
  import opened Graphs

  // ---------- What is to be ordered ----------

  /** The comparison by process, context, sequence and index. */
  predicate Before(nodes: seq<Node>, i: nat, j: nat) {
    i < |nodes| && j < |nodes|
    && var a, b := nodes[i], nodes[j];
    if a.pid != b.pid then a.pid < b.pid
    else if a.context != b.context then a.context < b.context
    else if a.sequence != b.sequence then a.sequence < b.sequence
    else i < j
  }

  predicate Together(nodes: seq<Node>, i: nat, j: nat) {
    i < |nodes| && j < |nodes| && SameContext(nodes[i], nodes[j])
  }

  /** j is the next node of i's context. */
  ghost predicate ChainNext(nodes: seq<Node>, i: nat, j: nat) {
    Together(nodes, i, j) && Before(nodes, i, j)
    && forall k :: Together(nodes, i, k) ==> !(Before(nodes, i, k) && Before(nodes, k, j))
  }

  ghost function EdgeArcs(edges: seq<ModelEdge>): set<(nat, nat)> {
    set e | e in edges && e.from != e.to :: (e.from, e.to)
  }

  ghost function ChainArcs(nodes: seq<Node>): set<(nat, nat)> {
    set i: nat, j: nat | i < |nodes| && j < |nodes| && ChainNext(nodes, i, j) :: (i, j)
  }

  /** The arcs the order must respect: model edges and each context's sequence
      chain, without self-edges. */
  ghost function CausalArcs(nodes: seq<Node>, edges: seq<ModelEdge>): set<(nat, nat)> {
    EdgeArcs(edges) + ChainArcs(nodes)
  }

  predicate InRange(edges: seq<ModelEdge>, n: nat) {
    forall e :: e in edges ==> e.from < n && e.to < n
  }

  // ---------- Topological orders ----------

  ghost predicate NoRepeats(s: seq<nat>) {
    forall i, j :: 0 <= i < j < |s| ==> s[i] != s[j]
  }

  ghost predicate Permutation(s: seq<nat>, n: nat) {
    |s| == n && NoRepeats(s) && forall v :: v in s <==> 0 <= v < n
  }

  /** A permutation of the nodes with every arc's source before its target. */
  ghost predicate Topological(g: set<(nat, nat)>, n: nat, s: seq<nat>) {
    Permutation(s, n) && forall i, j :: 0 <= i <= j < n ==> (s[j], s[i]) !in g
  }

  ghost predicate Ready(g: set<(nat, nat)>, n: nat, done: seq<nat>, v: nat) {
    v < n && v !in done && forall u :: (u, v) in g ==> u in done
  }

  /** Each place holds the least node whose predecessors all come earlier. */
  ghost predicate Greedy(g: set<(nat, nat)>, n: nat, s: seq<nat>) {
    forall i {:trigger s[i]} :: 0 <= i < |s| ==>
      Ready(g, n, s[..i], s[i]) && forall w :: Ready(g, n, s[..i], w) ==> s[i] <= w
  }

  ghost predicate LexicographicallyAtMost(s: seq<nat>, t: seq<nat>) {
    s == t || exists k :: 0 <= k < |s| && k < |t| && s[..k] == t[..k] && s[k] < t[k]
  }

  lemma {:induction false} GreedyExtends(g: set<(nat, nat)>, n: nat, s: seq<nat>, v: nat)
    requires Greedy(g, n, s) && Ready(g, n, s, v) && forall w :: Ready(g, n, s, w) ==> v <= w
    ensures Greedy(g, n, s + [v])
  {
    var t := s + [v];
    forall i | 0 <= i < |t|
      ensures Ready(g, n, t[..i], t[i]) && forall w :: Ready(g, n, t[..i], w) ==> t[i] <= w
    {
      assert t[..i] == s[..i];
      assert i == |s| ==> s[..i] == s;
    }
  }

  lemma {:induction false} GreedyMembers(g: set<(nat, nat)>, n: nat, s: seq<nat>)
    requires Greedy(g, n, s)
    ensures NoRepeats(s) && (forall v :: v in s ==> v < n) && |s| <= n
  {
    forall i, j | 0 <= i < j < |s|
      ensures s[i] != s[j]
    {
      assert Ready(g, n, s[..j], s[j]);
      assert s[i] == s[..j][i];
    }
    forall i | 0 <= i < |s|
      ensures s[i] < n
    {
      assert Ready(g, n, s[..i], s[i]);
    }
    NoRepeatsBounded(s, n);
  }

  lemma {:induction false} NoRepeatsBounded(s: seq<nat>, n: nat)
    requires NoRepeats(s) && forall v :: v in s ==> v < n
    ensures |s| <= n
    ensures |s| == n ==> forall v :: 0 <= v < n ==> v in s
  {
    var all := Below(n);
    if |s| > n {
      var i, j := Pigeonhole(s, all);
    } else if |s| == n {
      if v: nat :| v < n && v !in s {
        var i, j := Pigeonhole(s, all - {v});
      }
    }
  }

  lemma {:induction false} GreedyIsTopological(g: set<(nat, nat)>, n: nat, s: seq<nat>)
    requires Greedy(g, n, s) && |s| == n
    ensures Topological(g, n, s)
  {
    GreedyMembers(g, n, s);
    NoRepeatsBounded(s, n);
    forall i, j | 0 <= i <= j < n
      ensures (s[j], s[i]) !in g
    {
      assert Ready(g, n, s[..i], s[i]);
      assert s[j] !in s[..i];
    }
  }

  /** The greedy order is the lexicographically smallest topological order. */
  lemma {:induction false} GreedyIsLeast(g: set<(nat, nat)>, n: nat, s: seq<nat>, t: seq<nat>)
    requires Greedy(g, n, s) && |s| == n && Topological(g, n, t)
    requires forall u, v :: (u, v) in g ==> u < n
    ensures LexicographicallyAtMost(s, t)
  {
    if s != t {
      var k := FirstDifference(s, t);
      var done := s[..k];
      assert t[k] !in t[..k];
      assert t[k] in t;
      forall u | (u, t[k]) in g
        ensures u in done
      {
        assert u in t;
        var j :| 0 <= j < n && t[j] == u;
        assert j < k;
        assert done[j] == t[..k][j];
      }
      assert Ready(g, n, s[..k], t[k]);
      assert s[k] <= t[k];
    }
  }

  lemma {:induction false} FirstDifference(s: seq<nat>, t: seq<nat>) returns (k: nat)
    requires |s| == |t| && s != t
    ensures k < |s| && s[..k] == t[..k] && s[k] != t[k]
  {
    if s[0] != t[0] {
      k := 0;
    } else {
      assert s == [s[0]] + s[1..] && t == [t[0]] + t[1..];
      var r := FirstDifference(s[1..], t[1..]);
      assert s[..r + 1] == [s[0]] + s[1..][..r] && t[..r + 1] == [t[0]] + t[1..][..r];
      k := r + 1;
    }
  }

  /** A graph with a topological order has no cycle. */
  lemma {:induction false} TopologicalMeansAcyclic(g: set<(nat, nat)>, n: nat, s: seq<nat>)
    requires Topological(g, n, s) && forall u, v :: (u, v) in g ==> u < n && v < n
    ensures !Cyclic(g)
  {
    if Cyclic(g) {
      var u :| OnCycle(g, u);
      OnCycleIffSuccessorReaches(g, u);
      var v :| (u, v) in g && Reaches(g, v, u);
      assert u in s && v in s;
      var i :| 0 <= i < n && s[i] == v;
      var suffix := set k | i <= k < n :: s[k];
      forall a, b | a in suffix && (a, b) in g
        ensures b in suffix
      {
        assert b in s;
        var k :| i <= k < n && s[k] == a;
        var l :| 0 <= l < n && s[l] == b;
        assert k < l;
      }
      ClosedSetHoldsReachable(g, suffix, v, u);
      assert false;
    }
  }

  /** When no unplaced node is ready, the unplaced nodes hold a cycle. */
  lemma {:induction false} StuckMeansCyclic(g: set<(nat, nat)>, n: nat, s: seq<nat>)
    requires forall u, v :: (u, v) in g ==> u < n && v < n
    requires forall v :: !Ready(g, n, s, v)
    requires exists v: nat :: v < n && v !in s
    ensures Cyclic(g)
  {
    var rest := set v: nat | v < n && v !in s;
    var v0: nat :| v0 < n && v0 !in s;
    assert v0 in rest;
    forall v | v in rest
      ensures HasPredecessorIn(g, rest, v)
    {
      assert !Ready(g, n, s, v);
      var u :| (u, v) in g && u !in s;
      assert u in rest;
    }
    AllHavePredecessors(g, rest);
  }

  // ---------- The context chain ----------

  /** Strictly increasing in the comparison and holding every node below m. */
  ghost predicate SortedNodes(nodes: seq<Node>, m: nat, s: seq<nat>) {
    m <= |nodes| && (forall v :: v in s <==> 0 <= v < m)
    && forall i, j :: 0 <= i < j < |s| ==> Before(nodes, s[i], s[j])
  }

  /** By process, then context, then sequence number, then place in the log. */
  predicate InNumberOrder(nodes: seq<Node>, u: nat, v: nat) {
    u < |nodes| && v < |nodes|
    && var a, b := nodes[u], nodes[v];
       a.pid <= b.pid
       && (a.pid == b.pid ==> a.context <= b.context)
       && (a.pid == b.pid && a.context == b.context ==> a.sequence <= b.sequence)
       && (a.pid == b.pid && a.context == b.context && a.sequence == b.sequence ==> u < v)
  }

  ghost predicate ByNumbers(nodes: seq<Node>, s: seq<nat>) {
    forall i, j :: 0 <= i < j < |s| ==> InNumberOrder(nodes, s[i], s[j])
  }

  /** Any sort by the comparison may stand for the library's qsort. */
  method SortByContext(nodes: seq<Node>) returns (s: seq<nat>)
    ensures SortedNodes(nodes, |nodes|, s) && |s| == |nodes|
    ensures ByNumbers(nodes, s)
  {
    s := [];
    var m := 0;
    while m < |nodes|
      invariant m <= |nodes| && |s| == m && SortedNodes(nodes, m, s)
    {
      var k := 0;
      while k < |s| && Before(nodes, s[k], m)
        invariant k <= |s| && forall i :: 0 <= i < k ==> Before(nodes, s[i], m)
      {
        k := k + 1;
      }
      ghost var before := s;
      s := s[..k] + [m] + s[k..];
      InsertKeepsSorted(nodes, m, before, k, s);
      m := m + 1;
    }
    SortedIsByNumbers(nodes, s);
  }

  lemma {:induction false} SortedIsByNumbers(nodes: seq<Node>, s: seq<nat>)
    requires SortedNodes(nodes, |nodes|, s)
    ensures ByNumbers(nodes, s)
  {
    forall i, j | 0 <= i < j < |s|
      ensures InNumberOrder(nodes, s[i], s[j])
    {
      assert Before(nodes, s[i], s[j]);
    }
  }

  lemma {:induction false} InsertKeepsSorted(nodes: seq<Node>, m: nat, s: seq<nat>, k: nat, t: seq<nat>)
    requires m < |nodes| && SortedNodes(nodes, m, s) && k <= |s|
    requires forall i :: 0 <= i < k ==> Before(nodes, s[i], m)
    requires k < |s| ==> !Before(nodes, s[k], m)
    requires t == s[..k] + [m] + s[k..]
    ensures SortedNodes(nodes, m + 1, t)
  {
    assert s == s[..k] + s[k..];
    assert forall v :: v in t <==> v in s[..k] || v == m || v in s[k..];
    assert forall v :: v in s <==> v in s[..k] || v in s[k..];
    forall i, j | 0 <= i < j < |t|
      ensures Before(nodes, t[i], t[j])
    {
      if i == k {
        assert s[k] in s && s[j - 1] in s;
      }
    }
  }

  /** In the sorted sequence, neighbours of one context are exactly the chain. */
  lemma {:induction false} NeighboursAreChain(nodes: seq<Node>, s: seq<nat>, i: nat, j: nat)
    requires SortedNodes(nodes, |nodes|, s) && i < j < |s|
    ensures ChainNext(nodes, s[i], s[j]) <==> j == i + 1 && Together(nodes, s[i], s[j])
  {
    assert s[i] in s && s[j] in s;
    if j == i + 1 {
      forall k: nat | k < |nodes|
        ensures !(Before(nodes, s[i], k) && Before(nodes, k, s[j]))
      {
        assert k in s;
        var l :| 0 <= l < |s| && s[l] == k;
      }
    } else {
      assert s[i + 1] in s;
      assert Before(nodes, s[i], s[i + 1]) && Before(nodes, s[i + 1], s[j]);
    }
  }

  ghost function ArcBetween(nodes: seq<Node>, u: nat, v: nat): set<(nat, nat)> {
    if Together(nodes, u, v) then {(u, v)} else {}
  }

  /** The arcs between neighbours of one context among the first m places. */
  ghost function NeighbourArcs(nodes: seq<Node>, s: seq<nat>, m: nat): set<(nat, nat)>
    requires m <= |s|
  {
    if m <= 1 then {}
    else NeighbourArcs(nodes, s, m - 1) + ArcBetween(nodes, s[m - 2], s[m - 1])
  }

  lemma {:induction false} NeighbourArcsAreChainArcs(nodes: seq<Node>, s: seq<nat>, m: nat)
    requires SortedNodes(nodes, |nodes|, s) && m <= |s|
    ensures forall i, j :: 0 <= i < j < m ==>
            ((s[i], s[j]) in NeighbourArcs(nodes, s, m) <==> ChainNext(nodes, s[i], s[j]))
    ensures forall a :: a in NeighbourArcs(nodes, s, m) ==> a in ChainArcs(nodes)
  {
    if m > 1 {
      NeighbourArcsAreChainArcs(nodes, s, m - 1);
      NeighboursAreChain(nodes, s, m - 2, m - 1);
      forall i, j | 0 <= i < j < m
        ensures (s[i], s[j]) in NeighbourArcs(nodes, s, m) <==> ChainNext(nodes, s[i], s[j])
      {
        NeighboursAreChain(nodes, s, i, j);
        assert s[i] != s[j];
        if j == m - 1 && (s[i], s[j]) in NeighbourArcs(nodes, s, m - 1) {
          assert (s[i], s[j]) in ChainArcs(nodes);
        }
      }
    }
  }

  lemma {:induction false} AllNeighbourArcs(nodes: seq<Node>, s: seq<nat>)
    requires SortedNodes(nodes, |nodes|, s)
    ensures NeighbourArcs(nodes, s, |s|) == ChainArcs(nodes)
  {
    NeighbourArcsAreChainArcs(nodes, s, |s|);
    forall u: nat, v: nat | (u, v) in ChainArcs(nodes)
      ensures (u, v) in NeighbourArcs(nodes, s, |s|)
    {
      assert u in s && v in s;
      var i :| 0 <= i < |s| && s[i] == u;
      var j :| 0 <= j < |s| && s[j] == v;
      assert i < j;
    }
  }
}
