/** Schedules of the ordered nodes: what an adjacent swap may exchange, which
    schedules swaps reach, and what every reachable schedule keeps. */
module Schedules {
  import opened Events
  import opened CausalSpec
  import opened FiniteSets
  import opened SyncSpec

  /** The ordered nodes, their indices in the model, and the model's edges. */
  datatype Timeline = Timeline(nodes: seq<Node>, original: seq<nat>, edges: seq<ModelEdge>)

  ghost predicate Valid(t: Timeline) {
    |t.nodes| == |t.original|
  }

  predicate SameSyncThread(a: Node, b: Node) {
    if a.metadata != "" && b.metadata != "" then a.pid == b.pid && a.metadata == b.metadata
    else a.pid == b.pid && a.context == b.context
  }

  predicate DirectlyOrdered(edges: seq<ModelEdge>, left: nat, right: nat) {
    exists e :: e in edges && e.from == left && e.to == right
  }

  /** Two synchronization nodes of different threads without an edge between
      them may change places when they are neighbours. */
  predicate MaySwap(t: Timeline, left: nat, right: nat)
    requires |t.nodes| == |t.original| && left < |t.nodes| && right < |t.nodes|
  {
    IsSyncNode(t.nodes[left]) && IsSyncNode(t.nodes[right])
    && !SameSyncThread(t.nodes[left], t.nodes[right])
    && !DirectlyOrdered(t.edges, t.original[left], t.original[right])
  }

  ghost function Allowed(t: Timeline): set<(nat, nat)>
    requires Valid(t)
  {
    set a: nat, b: nat | a < |t.nodes| && b < |t.nodes| && MaySwap(t, a, b) :: (a, b)
  }

  // ---------- Swaps ----------

  function Identity(n: nat): seq<nat> {
    seq(n, i => i)
  }

  function SwapAt(s: seq<nat>, i: nat): seq<nat>
    requires i + 1 < |s|
  {
    s[i := s[i + 1]][i + 1 := s[i]]
  }

  ghost predicate SwapsTo(g: set<(nat, nat)>, s: seq<nat>, i: nat, t: seq<nat>) {
    i + 1 < |s| && (s[i], s[i + 1]) in g && t == SwapAt(s, i)
  }

  ghost predicate OneSwap(g: set<(nat, nat)>, s: seq<nat>, t: seq<nat>) {
    exists i :: SwapsTo(g, s, i, t)
  }

  /** k allowed swaps lead from the baseline to s. */
  ghost predicate ReachedIn(g: set<(nat, nat)>, n: nat, s: seq<nat>, k: nat)
    decreases k
  {
    if k == 0 then s == Identity(n)
    else exists t :: ReachedIn(g, n, t, k - 1) && OneSwap(g, t, s)
  }

  // ---------- What every reachable schedule keeps ----------

  /** Two nodes stand in the opposite order to the baseline only if the later
      of the baseline was allowed to pass the earlier. */
  ghost predicate InversionsAllowed(g: set<(nat, nat)>, s: seq<nat>) {
    forall i, j :: 0 <= i < j < |s| && s[i] > s[j] ==> (s[j], s[i]) in g
  }

  ghost predicate FixedOutside(movable: set<nat>, s: seq<nat>) {
    forall i :: 0 <= i < |s| && i !in movable ==> s[i] == i
  }

  ghost predicate KeepsMovable(movable: set<nat>, s: seq<nat>) {
    forall i :: 0 <= i < |s| && i in movable ==> s[i] in movable
  }

  ghost predicate Movable(g: set<(nat, nat)>, movable: set<nat>) {
    forall a, b :: (a, b) in g ==> a in movable && b in movable
  }

  lemma {:induction false} SwapKeepsMembers(s: seq<nat>, i: nat, v: nat)
    requires i + 1 < |s|
    ensures v in SwapAt(s, i) <==> v in s
  {
    assert multiset(SwapAt(s, i)) == multiset(s);
    assert v in SwapAt(s, i) <==> v in multiset(SwapAt(s, i));
    assert v in s <==> v in multiset(s);
  }

  lemma {:induction false} SwapKeepsPermutation(n: nat, s: seq<nat>, i: nat)
    requires Permutation(s, n) && i + 1 < |s|
    ensures Permutation(SwapAt(s, i), n)
  {
    forall v: nat
      ensures v in SwapAt(s, i) <==> v < n
    {
      SwapKeepsMembers(s, i, v);
    }
  }

  lemma {:induction false} SwapKeepsInversions(g: set<(nat, nat)>, s: seq<nat>, i: nat)
    requires InversionsAllowed(g, s) && i + 1 < |s| && (s[i], s[i + 1]) in g
    ensures InversionsAllowed(g, SwapAt(s, i))
  {}

  lemma {:induction false} SwapKeepsFixed(movable: set<nat>, s: seq<nat>, i: nat)
    requires FixedOutside(movable, s) && KeepsMovable(movable, s)
    requires i + 1 < |s| && s[i] in movable && s[i + 1] in movable
    ensures FixedOutside(movable, SwapAt(s, i)) && KeepsMovable(movable, SwapAt(s, i))
  {
    assert i !in movable ==> s[i] == i;
    assert i + 1 !in movable ==> s[i + 1] == i + 1;
  }

  lemma {:induction false} SwapKeeps(g: set<(nat, nat)>, movable: set<nat>, n: nat, s: seq<nat>, t: seq<nat>)
    requires Permutation(s, n) && InversionsAllowed(g, s) && FixedOutside(movable, s) && KeepsMovable(movable, s)
    requires OneSwap(g, s, t) && Movable(g, movable)
    ensures Permutation(t, n) && InversionsAllowed(g, t) && FixedOutside(movable, t) && KeepsMovable(movable, t)
  {
    var i: nat :| SwapsTo(g, s, i, t);
    SwapKeepsPermutation(n, s, i);
    SwapKeepsInversions(g, s, i);
    SwapKeepsFixed(movable, s, i);
  }

  lemma {:induction false} IdentityKeeps(g: set<(nat, nat)>, movable: set<nat>, n: nat)
    ensures Permutation(Identity(n), n) && InversionsAllowed(g, Identity(n))
    ensures FixedOutside(movable, Identity(n)) && KeepsMovable(movable, Identity(n))
  {
    forall v: nat
      ensures v in Identity(n) <==> v < n
    {
      if v < n {
        assert Identity(n)[v] == v;
      }
    }
  }

  lemma {:induction false} ReachedKeeps(g: set<(nat, nat)>, movable: set<nat>, n: nat, s: seq<nat>, k: nat)
    requires ReachedIn(g, n, s, k) && Movable(g, movable)
    ensures Permutation(s, n) && InversionsAllowed(g, s) && FixedOutside(movable, s) && KeepsMovable(movable, s)
    decreases k
  {
    if k == 0 {
      IdentityKeeps(g, movable, n);
    } else {
      var t :| ReachedIn(g, n, t, k - 1) && OneSwap(g, t, s);
      ReachedKeeps(g, movable, n, t, k - 1);
      SwapKeeps(g, movable, n, t, s);
    }
  }

  ghost predicate RespectsEdges(t: Timeline, s: seq<nat>)
    requires Valid(t)
  {
    forall i, j :: 0 <= i < j < |s| && s[i] < |t.nodes| && s[j] < |t.nodes| ==>
      !DirectlyOrdered(t.edges, t.original[s[j]], t.original[s[i]])
  }

  // ---------- Threads, told from the records ----------

  /** Of one process, and of one metadata or, when either has none, of one context. */
  predicate OfOneThread(a: Node, b: Node) {
    a.pid == b.pid
    && ((a.metadata != "" && a.metadata == b.metadata)
        || ((a.metadata == "" || b.metadata == "") && a.context == b.context))
  }

  /** Two records of one thread stand in the order of the baseline. */
  ghost predicate KeepsThreads(t: Timeline, s: seq<nat>) {
    forall i, j ::
      0 <= i < j < |s| && s[i] < |t.nodes| && s[j] < |t.nodes| && OfOneThread(t.nodes[s[i]], t.nodes[s[j]]) ==>
        s[i] < s[j]
  }

  /** Of different processes, or of different metadata, or, when either has none,
      of different contexts; and no edge leads from one to the other. */
  predicate Strangers(t: Timeline, a: nat, b: nat)
    requires |t.nodes| == |t.original| && a < |t.nodes| && b < |t.nodes|
  {
    var x, y := t.nodes[a], t.nodes[b];
    && (forall e :: e in t.edges ==> e.from != t.original[a] || e.to != t.original[b])
    && (|| x.pid != y.pid
        || (x.metadata != y.metadata && x.metadata != "" && y.metadata != "")
        || (x.context != y.context && (x.metadata == "" || y.metadata == "")))
  }

  /** The pairs that may change places: synchronization records of strangers. */
  lemma {:induction false} AllowedAreStrangers(t: Timeline, a: nat, b: nat)
    requires Valid(t)
    ensures (a, b) in Allowed(t)
            <==> a < |t.nodes| && b < |t.nodes| && IsSyncNode(t.nodes[a]) && IsSyncNode(t.nodes[b])
                 && Strangers(t, a, b)
  {
    hide IsSyncNode;
  }

  /** Every schedule that swaps reach keeps the order of every thread. */
  lemma {:induction false} ThreadsAreKept(t: Timeline, s: seq<nat>, k: nat)
    requires Valid(t) && ReachedIn(Allowed(t), |t.nodes|, s, k)
    ensures KeepsThreads(t, s)
  {
    hide Allowed, IsSyncNode, ReachedIn, Strangers;
    var n := |t.nodes|;
    AllowedInRange(t);
    ReachedKeeps(Allowed(t), Below(n), n, s, k);
    forall i, j | 0 <= i < j < |s| && s[i] < n && s[j] < n && OfOneThread(t.nodes[s[i]], t.nodes[s[j]])
      ensures s[i] < s[j]
    {
      if s[i] > s[j] {
        AllowedAreStrangers(t, s[j], s[i]);
        OneThreadIsNoStranger(t, s[j], s[i]);
        assert false;
      }
    }
  }

  lemma {:induction false} AllowedInRange(t: Timeline)
    requires Valid(t)
    ensures Movable(Allowed(t), Below(|t.nodes|))
  {
    hide IsSyncNode, MaySwap;
  }

  lemma {:induction false} OneThreadIsNoStranger(t: Timeline, a: nat, b: nat)
    requires Valid(t) && a < |t.nodes| && b < |t.nodes| && OfOneThread(t.nodes[b], t.nodes[a])
    ensures !Strangers(t, a, b)
  {}

  /** Neighbours that are synchronization records of strangers change places in
      one more swap. */
  lemma {:induction false} StrangersChangePlaces(t: Timeline, s: seq<nat>, k: nat, i: nat)
    requires Valid(t) && ReachedIn(Allowed(t), |t.nodes|, s, k) && i + 1 < |s|
    requires s[i] < |t.nodes| && s[i + 1] < |t.nodes| && Strangers(t, s[i], s[i + 1])
    requires IsSyncNode(t.nodes[s[i]]) && IsSyncNode(t.nodes[s[i + 1]])
    ensures ReachedIn(Allowed(t), |t.nodes|, SwapAt(s, i), k + 1)
  {
    hide Allowed, IsSyncNode, Strangers;
    AllowedAreStrangers(t, s[i], s[i + 1]);
    assert SwapsTo(Allowed(t), s, i, SwapAt(s, i));
    assert OneSwap(Allowed(t), s, SwapAt(s, i));
    assert ReachedIn(Allowed(t), |t.nodes|, s, k + 1 - 1);
  }

  ghost predicate KeepsOtherNodes(t: Timeline, s: seq<nat>) {
    forall i :: 0 <= i < |s| && i < |t.nodes| && !IsSyncNode(t.nodes[i]) ==> s[i] == i
  }

  /** Every schedule that swaps reach is a permutation of the baseline, respects
      every model edge the baseline respects, keeps the order of every two
      nodes of one thread and leaves all other nodes in place. */
  lemma {:induction false} ReachableSchedules(t: Timeline, s: seq<nat>, k: nat)
    requires Valid(t) && ReachedIn(Allowed(t), |t.nodes|, s, k)
    requires RespectsEdges(t, Identity(|t.nodes|))
    ensures Permutation(s, |t.nodes|)
    ensures RespectsEdges(t, s) && KeepsThreads(t, s) && KeepsOtherNodes(t, s)
  {
    var n, g := |t.nodes|, Allowed(t);
    var movable := set a: nat | a < n && IsSyncNode(t.nodes[a]);
    ReachedKeeps(g, movable, n, s, k);
    ThreadsAreKept(t, s, k);
    forall i, j | 0 <= i < j < |s|
      ensures s[i] < n && s[j] < n && !DirectlyOrdered(t.edges, t.original[s[j]], t.original[s[i]])
    {
      assert s[i] in s && s[j] in s;
      if s[i] > s[j] {
        assert (s[j], s[i]) in g;
      } else {
        assert Identity(n)[s[i]] == s[i] && Identity(n)[s[j]] == s[j];
      }
    }
  }

  /** The timeline of a causal order. */
  function TimelineOf(nodes: seq<Node>, edges: seq<ModelEdge>, ordered: seq<nat>): Timeline
    requires forall v :: v in ordered ==> v < |nodes|
  {
    Timeline(seq(|ordered|, i requires 0 <= i < |ordered| => assert ordered[i] in ordered; nodes[ordered[i]]), ordered,
             edges)
  }

  lemma {:induction false} CausalOrderRespectsEdges(nodes: seq<Node>, edges: seq<ModelEdge>, ordered: seq<nat>)
    requires Topological(CausalArcs(nodes, edges), |nodes|, ordered)
    ensures RespectsEdges(TimelineOf(nodes, edges, ordered), Identity(|nodes|))
  {
    forall i, j | 0 <= i < j < |nodes|
      ensures !DirectlyOrdered(edges, ordered[j], ordered[i])
    {
      assert ordered[i] != ordered[j];
      assert (ordered[j], ordered[i]) !in EdgeArcs(edges);
    }
  }

  // ---------- Replaying recorded swaps ----------

  /** Exchanges two values wherever they stand. */
  function Exchange(s: seq<nat>, left: nat, right: nat): seq<nat> {
    seq(|s|, i requires 0 <= i < |s| => if s[i] == left then right else if s[i] == right then left else s[i])
  }

  function Replay(s: seq<nat>, swaps: seq<(nat, nat)>): seq<nat> {
    if swaps == [] then s
    else
      var last := swaps[|swaps| - 1];
      Exchange(Replay(s, swaps[..|swaps| - 1]), last.0, last.1)
  }

  lemma {:induction false} ExchangeIsSwap(s: seq<nat>, i: nat)
    requires i + 1 < |s| && NoRepeats(s)
    ensures Exchange(s, s[i], s[i + 1]) == SwapAt(s, i)
  {}
}
