/** The breadth-first search over schedules as a growing tree, independent of
    what makes a schedule interesting. */
module ScheduleSearch {
  import opened Events
  import opened FiniteSets
  import opened Schedules

  /** The tables of the walk: for every schedule the one it came from and the
      two nodes that changed places. */
  datatype Search = Search(orders: seq<seq<nat>>, parents: seq<nat>, left: seq<nat>, right: seq<nat>)

  ghost predicate Child(g: set<(nat, nat)>, s: Search, k: nat)
    requires k < |s.orders| == |s.parents| == |s.left| == |s.right|
  {
    s.parents[k] < k
    && var from := s.orders[s.parents[k]];
    exists i: nat :: SwapsTo(g, from, i, s.orders[k]) && s.left[k] == from[i] && s.right[k] == from[i + 1]
  }

  /** Every recorded schedule but the first is one swap away from its parent,
      which was recorded earlier; no schedule is recorded twice. */
  ghost predicate Tree(g: set<(nat, nat)>, n: nat, s: Search) {
    0 < |s.orders| == |s.parents| == |s.left| == |s.right|
    && s.orders[0] == Identity(n)
    && (forall k :: 0 < k < |s.orders| ==> Child(g, s, k))
    && (forall j, k :: 0 <= j < k < |s.orders| ==> s.orders[j] != s.orders[k])
  }

  /** Swaps from the baseline to schedule k along the parents. */
  function Depth(parents: seq<nat>, k: nat): nat {
    if k == 0 || k >= |parents| || parents[k] >= k then 0 else 1 + Depth(parents, parents[k])
  }

  ghost predicate Layered(parents: seq<nat>, q: nat) {
    (forall i, j {:trigger Depth(parents, i), Depth(parents, j)} :: 0 <= i <= j < |parents| ==>
     Depth(parents, i) <= Depth(parents, j))
    && forall j :: 0 <= j < |parents| ==> Depth(parents, j) <= Depth(parents, q) + 1
  }

  ghost predicate FoundWithin(s: Search, t: seq<nat>, d: nat) {
    exists m :: 0 <= m < |s.orders| && s.orders[m] == t && Depth(s.parents, m) <= d
  }

  /** Every schedule one swap away from entry m, at a place below `upTo`. */
  ghost predicate Expanded(g: set<(nat, nat)>, s: Search, m: nat, upTo: nat)
    requires m < |s.orders|
  {
    forall i: nat, t :: i < upTo && SwapsTo(g, s.orders[m], i, t) ==> FoundWithin(s, t, Depth(s.parents, m) + 1)
  }

  /** Entries before q are expanded, entry q below `upTo`. */
  ghost predicate Queue(g: set<(nat, nat)>, n: nat, s: Search, q: nat, upTo: nat) {
    Tree(g, n, s) && q <= |s.orders|
    && (q < |s.orders| ==> Layered(s.parents, q) && Expanded(g, s, q, upTo))
    && forall m :: 0 <= m < q ==> Expanded(g, s, m, |s.orders[m]|)
  }

  function Added(s: Search, q: nat, i: nat): Search
    requires q < |s.orders| && i + 1 < |s.orders[q]|
  {
    Search(s.orders + [SwapAt(s.orders[q], i)], s.parents + [q],
           s.left + [s.orders[q][i]], s.right + [s.orders[q][i + 1]])
  }

  lemma {:induction false} DepthKept(parents: seq<nat>, p: nat, k: nat)
    requires k < |parents|
    ensures Depth(parents + [p], k) == Depth(parents, k)
  {
    if k > 0 && parents[k] < k {
      DepthKept(parents, p, parents[k]);
    }
  }

  lemma {:induction false} AddKeepsTree(g: set<(nat, nat)>, n: nat, s: Search, q: nat, i: nat)
    requires Tree(g, n, s) && q < |s.orders| && i + 1 < |s.orders[q]|
    requires (s.orders[q][i], s.orders[q][i + 1]) in g && SwapAt(s.orders[q], i) !in s.orders
    ensures Tree(g, n, Added(s, q, i))
  {
    var t := Added(s, q, i);
    forall k | 0 < k < |t.orders|
      ensures Child(g, t, k)
    {
      if k < |s.orders| {
        assert Child(g, s, k);
        var from := s.orders[s.parents[k]];
        var j: nat :| SwapsTo(g, from, j, s.orders[k]) && s.left[k] == from[j] && s.right[k] == from[j + 1];
        assert SwapsTo(g, t.orders[t.parents[k]], j, t.orders[k]);
      } else {
        assert SwapsTo(g, t.orders[t.parents[k]], i, t.orders[k]);
      }
    }
    forall j, k | 0 <= j < k < |t.orders|
      ensures t.orders[j] != t.orders[k]
    {
      assert j < |s.orders| ==> s.orders[j] in s.orders;
    }
  }

  lemma {:induction false} AddKeepsFound(s: Search, q: nat, i: nat, t: seq<nat>, d: nat)
    requires q < |s.orders| == |s.parents| && i + 1 < |s.orders[q]| && FoundWithin(s, t, d)
    ensures FoundWithin(Added(s, q, i), t, d)
  {
    var m :| 0 <= m < |s.orders| && s.orders[m] == t && Depth(s.parents, m) <= d;
    DepthKept(s.parents, q, m);
    assert Added(s, q, i).orders[m] == t;
  }

  lemma {:induction false} AddKeepsExpanded(g: set<(nat, nat)>, s: Search, q: nat, i: nat, m: nat, upTo: nat)
    requires q < |s.orders| == |s.parents| && i + 1 < |s.orders[q]| && m < |s.orders| && Expanded(g, s, m, upTo)
    ensures Expanded(g, Added(s, q, i), m, upTo)
  {
    var t := Added(s, q, i);
    DepthKept(s.parents, q, m);
    forall j, c | 0 <= j < upTo && SwapsTo(g, t.orders[m], j, c)
      ensures FoundWithin(t, c, Depth(t.parents, m) + 1)
    {
      assert SwapsTo(g, s.orders[m], j, c);
      AddKeepsFound(s, q, i, c, Depth(s.parents, m) + 1);
    }
  }

  lemma {:induction false} AddKeepsLayered(parents: seq<nat>, q: nat)
    requires q < |parents| && Layered(parents, q)
    ensures Layered(parents + [q], q) && Depth(parents + [q], |parents|) == Depth(parents, q) + 1
  {
    forall k: nat | k < |parents|
      ensures Depth(parents + [q], k) == Depth(parents, k)
    {
      DepthKept(parents, q, k);
    }
    DepthKept(parents, q, q);
  }

  /** A new schedule from place i of entry q keeps the queue, and place i is done. */
  lemma {:induction false} AddKeepsQueue(g: set<(nat, nat)>, n: nat, s: Search, q: nat, i: nat)
    requires Queue(g, n, s, q, i) && q < |s.orders| && i + 1 < |s.orders[q]|
    requires (s.orders[q][i], s.orders[q][i + 1]) in g && SwapAt(s.orders[q], i) !in s.orders
    ensures Queue(g, n, Added(s, q, i), q, i + 1)
  {
    var t := Added(s, q, i);
    AddKeepsTree(g, n, s, q, i);
    AddKeepsLayered(s.parents, q);
    forall m: nat | m < q
      ensures Expanded(g, t, m, |t.orders[m]|)
    {
      AddKeepsExpanded(g, s, q, i, m, |s.orders[m]|);
    }
    AddKeepsExpanded(g, s, q, i, q, i);
    DepthKept(s.parents, q, q);
    assert t.orders[|s.orders|] == SwapAt(s.orders[q], i);
    assert FoundWithin(t, SwapAt(s.orders[q], i), Depth(t.parents, q) + 1);
  }

  /** Place i of entry q adds nothing: no swap is allowed or its schedule is known. */
  lemma {:induction false} SkipKeepsQueue(g: set<(nat, nat)>, n: nat, s: Search, q: nat, i: nat)
    requires Queue(g, n, s, q, i) && q < |s.orders| && i + 1 < |s.orders[q]|
    requires (s.orders[q][i], s.orders[q][i + 1]) !in g || SwapAt(s.orders[q], i) in s.orders
    ensures Queue(g, n, s, q, i + 1)
  {
    hide Tree, Expanded, Layered;
    if SwapAt(s.orders[q], i) in s.orders {
      FoundInQueue(g, n, s, q, i, SwapAt(s.orders[q], i));
    }
    ExpandedNext(g, s, q, i);
  }

  /** A recorded schedule is at most one swap deeper than the entry being expanded. */
  lemma {:induction false} FoundInQueue(g: set<(nat, nat)>, n: nat, s: Search, q: nat, upTo: nat, t: seq<nat>)
    requires Queue(g, n, s, q, upTo) && q < |s.orders| && t in s.orders
    ensures FoundWithin(s, t, Depth(s.parents, q) + 1)
  {
    var m :| 0 <= m < |s.orders| && s.orders[m] == t;
  }

  lemma {:induction false} ExpandedNext(g: set<(nat, nat)>, s: Search, q: nat, i: nat)
    requires q < |s.orders| && i + 1 < |s.orders[q]| && Expanded(g, s, q, i)
    requires (s.orders[q][i], s.orders[q][i + 1]) !in g
             || FoundWithin(s, SwapAt(s.orders[q], i), Depth(s.parents, q) + 1)
    ensures Expanded(g, s, q, i + 1)
  {
    forall j: nat, t | j < i + 1 && SwapsTo(g, s.orders[q], j, t)
      ensures FoundWithin(s, t, Depth(s.parents, q) + 1)
    {
      assert j < i || t == SwapAt(s.orders[q], i);
    }
  }

  /** An entry expanded at every place is done; the next one is due. */
  lemma {:induction false} NextEntry(g: set<(nat, nat)>, n: nat, s: Search, q: nat, upTo: nat)
    requires Queue(g, n, s, q, upTo) && q < |s.orders| && upTo + 1 >= |s.orders[q]|
    ensures Queue(g, n, s, q + 1, 0)
  {
    forall i, t | 0 <= i < |s.orders[q]| && SwapsTo(g, s.orders[q], i, t)
      ensures FoundWithin(s, t, Depth(s.parents, q) + 1)
    {
      assert i < upTo;
    }
    assert q + 1 < |s.orders| ==> Depth(s.parents, q) <= Depth(s.parents, q + 1);
  }

  lemma {:induction false} StartQueue(g: set<(nat, nat)>, n: nat)
    ensures Queue(g, n, Search([Identity(n)], [SIZE_MAX], [0], [0]), 0, 0)
  {}

  // ---------- What the tree says ----------

  /** Every recorded schedule is reached in as many swaps as its depth. */
  lemma {:induction false} RecordedIsReached(g: set<(nat, nat)>, n: nat, s: Search, k: nat)
    requires Tree(g, n, s) && k < |s.orders|
    ensures ReachedIn(g, n, s.orders[k], Depth(s.parents, k))
    decreases k
  {
    if k > 0 {
      assert Child(g, s, k);
      RecordedIsReached(g, n, s, s.parents[k]);
      var i: nat :| SwapsTo(g, s.orders[s.parents[k]], i, s.orders[k]);
      assert OneSwap(g, s.orders[s.parents[k]], s.orders[k]);
    }
  }

  /** Schedules reached in fewer swaps than the entries not yet expanded are
      recorded, no deeper than that. */
  lemma {:induction false} ReachedIsRecorded(g: set<(nat, nat)>, n: nat, s: Search, q: nat, t: seq<nat>, j: nat)
    requires Tree(g, n, s) && ReachedIn(g, n, t, j) && q <= |s.orders|
    requires forall m :: 0 <= m < q ==> Expanded(g, s, m, |s.orders[m]|)
    requires forall m :: q <= m < |s.orders| ==> j <= Depth(s.parents, m)
    ensures FoundWithin(s, t, j)
    decreases j
  {
    if j == 0 {
      assert s.orders[0] == t && Depth(s.parents, 0) <= 0;
    } else {
      var u :| ReachedIn(g, n, u, j - 1) && OneSwap(g, u, t);
      ReachedIsRecorded(g, n, s, q, u, j - 1);
      var m :| 0 <= m < |s.orders| && s.orders[m] == u && Depth(s.parents, m) <= j - 1;
      var i: nat :| SwapsTo(g, u, i, t);
      assert Expanded(g, s, m, |s.orders[m]|);
      var m' :| 0 <= m' < |s.orders| && s.orders[m'] == t && Depth(s.parents, m') <= Depth(s.parents, m) + 1;
    }
  }

  // ---------- Replaying a schedule from its parents ----------

  function SwapsOf(s: Search, k: nat): seq<(nat, nat)> {
    if k == 0 || k >= |s.parents| || k >= |s.left| || k >= |s.right| || s.parents[k] >= k then []
    else SwapsOf(s, s.parents[k]) + [(s.left[k], s.right[k])]
  }

  lemma {:induction false} ParentExchanged(g: set<(nat, nat)>, n: nat, s: Search, k: nat)
    requires Tree(g, n, s) && 0 < k < |s.orders| && forall a, b :: (a, b) in g ==> a < n && b < n
    ensures s.parents[k] < k && Exchange(s.orders[s.parents[k]], s.left[k], s.right[k]) == s.orders[k]
  {
    hide ReachedIn;
    assert Child(g, s, k);
    var p := s.parents[k];
    var i: nat :| SwapsTo(g, s.orders[p], i, s.orders[k]) && s.left[k] == s.orders[p][i]
      && s.right[k] == s.orders[p][i + 1];
    RecordedIsReached(g, n, s, p);
    ReachedKeeps(g, Below(n), n, s.orders[p], Depth(s.parents, p));
    ExchangeIsSwap(s.orders[p], i);
  }

  lemma {:induction false} ReplayNext(s: seq<nat>, swaps: seq<(nat, nat)>, pair: (nat, nat))
    ensures Replay(s, swaps + [pair]) == Exchange(Replay(s, swaps), pair.0, pair.1)
  {
    assert (swaps + [pair])[..|swaps|] == swaps;
  }

  lemma {:induction false} SwapsNext(g: set<(nat, nat)>, n: nat, s: Search, k: nat)
    requires Tree(g, n, s) && k < |s.orders|
    ensures k == 0 ==> s.orders[k] == Identity(n) && SwapsOf(s, k) == [] && Depth(s.parents, k) == 0
    ensures k > 0 ==> s.parents[k] < k && SwapsOf(s, k) == SwapsOf(s, s.parents[k]) + [(s.left[k], s.right[k])]
                      && Depth(s.parents, k) == 1 + Depth(s.parents, s.parents[k])
  {
    if k > 0 {
      assert Child(g, s, k);
    }
  }

  /** The recorded swaps, replayed from the baseline, give the schedule. */
  lemma {:induction false} ReplayGivesSchedule(g: set<(nat, nat)>, n: nat, s: Search, k: nat)
    requires Tree(g, n, s) && k < |s.orders| && forall a, b :: (a, b) in g ==> a < n && b < n
    ensures Replay(Identity(n), SwapsOf(s, k)) == s.orders[k] && |SwapsOf(s, k)| == Depth(s.parents, k)
    decreases k
  {
    SwapsNext(g, n, s, k);
    if k > 0 {
      hide Exchange, Child, SwapsOf, Depth;
      var p := s.parents[k];
      ParentExchanged(g, n, s, k);
      ReplayGivesSchedule(g, n, s, p);
      ReplayNext(Identity(n), SwapsOf(s, p), (s.left[k], s.right[k]));
    }
  }

  /** The chain of the counterexample: from the schedule to the baseline along
      the parents, then read in reverse. */
  method TraceSwaps(ghost g: set<(nat, nat)>, ghost n: nat, s: Search, k: nat) returns (swaps: seq<(nat, nat)>)
    requires Tree(g, n, s) && k < |s.orders|
    requires forall a, b :: (a, b) in g ==> a < n && b < n
    ensures |swaps| == Depth(s.parents, k) && Replay(Identity(n), swaps) == s.orders[k]
  {
    swaps := [];
    var cursor: nat := k;
    while cursor != 0
      invariant cursor < |s.orders|
      invariant SwapsOf(s, cursor) + swaps == SwapsOf(s, k)
    {
      assert Child(g, s, cursor);
      swaps := [(s.left[cursor], s.right[cursor])] + swaps;
      cursor := s.parents[cursor];
    }
    assert [] + swaps == swaps;
    ReplayGivesSchedule(g, n, s, k);
  }
}
