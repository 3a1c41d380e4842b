/** How large the edge tables of the synchronization analysis become. They are
    made with one place per ordered node, two for wait edges; the model's grow. */
module SyncTables {
  import opened SyncPlaces
  import opened SyncSpec
  import opened SyncTheorems
  import opened SyncWaits

  // ---------- Lock edges ----------

  /** How many of the locks held are not the given one. */
  function OtherLocks(held: seq<Name>, x: Name): nat {
    if held == [] then 0 else OtherLocks(held[..|held| - 1], x) + (if held[|held| - 1] != x then 1 else 0)
  }

  /** Every acquire adds one edge for every other lock its thread holds. */
  function LockEdgeCount(events: seq<SyncEvent>): nat {
    if events == [] then 0
    else
      var init, e := events[..|events| - 1], events[|events| - 1];
      LockEdgeCount(init) + (if e.op == AcquireLock then OtherLocks(LocksHeld(init, e.thread), e.resource) else 0)
  }

  lemma {:induction false} NewEdgesCounted(held: seq<Name>, x: Name)
    ensures |NewLockEdges(held, x)| == OtherLocks(held, x)
  {
    if held != [] {
      NewEdgesCounted(held[..|held| - 1], x);
    }
  }

  lemma {:induction false} EdgesAfterStep(s: SyncState, e: SyncEvent, at: nat)
    ensures |Step(s, e, at).lockEdges|
            == |s.lockEdges| + (if e.op == AcquireLock then |NewLockEdges(Stack(s.holds, e.thread), e.resource)| else 0)
  {
    hide ReportEach, RemoveLastMatch, HoldersOf, WaitersOn, ClosingLocks, OtherMutexWaits, TopOf, TopMismatch, Stack,
         NewLockEdges;
  }

  lemma {:induction false} LockEdgesCounted(events: seq<SyncEvent>)
    ensures |Run(events).lockEdges| == LockEdgeCount(events)
  {
    hide Step, LocksHeld, Stack;
    if events != [] {
      var n := |events| - 1;
      LockEdgesCounted(events[..n]);
      EdgesAfterStep(Run(events[..n]), events[n], n);
      HoldsAreLocksHeld(events[..n], events[n].thread);
      NewEdgesCounted(LocksHeld(events[..n], events[n].thread), events[n].resource);
    }
  }

  // ---------- Wait edges ----------

  /** How many holds are of a resource. */
  function HoldsOf(holds: seq<SyncItem>, x: Name): nat {
    if holds == [] then 0 else HoldsOf(holds[..|holds| - 1], x) + (if holds[|holds| - 1].resource == x then 1 else 0)
  }

  /** An unfinished join gives one edge, another wait one for every hold of its
      resource. */
  function WaitEdgeCount(waits: seq<SyncItem>, holds: seq<SyncItem>): nat {
    if waits == [] then 0
    else
      var last := waits[|waits| - 1];
      WaitEdgeCount(waits[..|waits| - 1], holds) + (if last.join then 1 else HoldsOf(holds, last.resource))
  }

  lemma {:induction false} HolderEdgesCounted(holds: seq<SyncItem>, wait: SyncItem)
    ensures |HolderEdges(holds, wait)| == HoldsOf(holds, wait.resource)
  {
    if holds != [] {
      HolderEdgesCounted(holds[..|holds| - 1], wait);
    }
  }

  lemma {:induction false} WaitEdgesCounted(waits: seq<SyncItem>, holds: seq<SyncItem>)
    ensures |WaitEdges(waits, holds)| == WaitEdgeCount(waits, holds)
  {
    if waits != [] {
      WaitEdgesCounted(waits[..|waits| - 1], holds);
      HolderEdgesCounted(holds, waits[|waits| - 1]);
    }
  }

  ghost function HoldsIn(holds: seq<SyncItem>, x: Name): set<nat> {
    set h | h in holds && h.resource == x :: h.at
  }

  ghost function PairsIn(waits: seq<SyncItem>, holds: seq<SyncItem>): set<(nat, nat)> {
    set w, h | w in waits && h in holds && !w.join && h.resource == w.resource :: (w.at, h.at)
  }

  ghost function JoinsIn(waits: seq<SyncItem>): set<nat> {
    set w | w in waits && w.join :: w.at
  }

  lemma {:induction false} HoldsCounted(holds: seq<SyncItem>, x: Name)
    requires Rising(holds)
    ensures |HoldsIn(holds, x)| == HoldsOf(holds, x)
  {
    hide Rising;
    if holds == [] {
      assert HoldsIn(holds, x) == {};
    } else {
      var init, last := holds[..|holds| - 1], holds[|holds| - 1];
      LastIsNew(holds);
      HoldsCounted(init, x);
      assert HoldsIn(holds, x) == HoldsIn(init, x) + (if last.resource == x then {last.at} else {});
    }
  }

  ghost function Row(a: nat, s: set<nat>): set<(nat, nat)> {
    set b | b in s :: (a, b)
  }

  lemma {:induction false} RowSize(a: nat, s: set<nat>)
    ensures |Row(a, s)| == |s|
  {
    if s == {} {
      assert Row(a, s) == {};
    } else {
      var b :| b in s;
      RowSize(a, s - {b});
      assert Row(a, s) == Row(a, s - {b}) + {(a, b)};
    }
  }

  lemma {:induction false} PairIn(waits: seq<SyncItem>, holds: seq<SyncItem>, i: nat, j: nat)
    ensures (i, j) in PairsIn(waits, holds)
            <==> exists w :: w in waits && !w.join && w.at == i && j in HoldsIn(holds, w.resource)
  {
    if (i, j) in PairsIn(waits, holds) {
      var w, h :| w in waits && h in holds && !w.join && h.resource == w.resource && (w.at, h.at) == (i, j);
      assert h.at in HoldsIn(holds, w.resource);
    }
    if w :| w in waits && !w.join && w.at == i && j in HoldsIn(holds, w.resource) {
      var h :| h in holds && h.resource == w.resource && h.at == j;
      assert (w.at, h.at) in PairsIn(waits, holds);
    }
  }

  lemma {:induction false} PairsOfLast(init: seq<SyncItem>, w: SyncItem, holds: seq<SyncItem>, i: nat, j: nat)
    requires forall v :: v in init ==> v.at < w.at
    ensures (i, j) in PairsIn(init + [w], holds)
            <==> (i, j) in PairsIn(init, holds) || (!w.join && i == w.at && j in HoldsIn(holds, w.resource))
    ensures (i, j) in PairsIn(init, holds) ==> i < w.at
  {
    hide PairsIn, HoldsIn;
    PairIn(init + [w], holds, i, j);
    PairIn(init, holds, i, j);
    assert w in init + [w];
  }

  lemma {:induction false} PairsGrow(init: seq<SyncItem>, w: SyncItem, holds: seq<SyncItem>)
    requires forall v :: v in init ==> v.at < w.at
    ensures |PairsIn(init + [w], holds)|
            == |PairsIn(init, holds)| + (if w.join then 0 else |HoldsIn(holds, w.resource)|)
  {
    hide PairsIn, HoldsIn;
    var row := if w.join then {} else Row(w.at, HoldsIn(holds, w.resource));
    RowSize(w.at, HoldsIn(holds, w.resource));
    forall p: (nat, nat)
      ensures p in PairsIn(init + [w], holds) <==> p in PairsIn(init, holds) || p in row
      ensures p in row ==> p !in PairsIn(init, holds)
    {
      PairsOfLast(init, w, holds, p.0, p.1);
      assert p == (p.0, p.1);
    }
    assert PairsIn(init + [w], holds) == PairsIn(init, holds) + row;
    assert PairsIn(init, holds) !! row;
  }

  lemma {:induction false} JoinsGrow(init: seq<SyncItem>, w: SyncItem)
    requires forall v :: v in init ==> v.at < w.at
    ensures |JoinsIn(init + [w])| == |JoinsIn(init)| + (if w.join then 1 else 0)
  {
    assert forall v :: v in init + [w] <==> v in init || v == w;
    assert JoinsIn(init + [w]) == JoinsIn(init) + (if w.join then {w.at} else {});
  }

  lemma {:induction false} PairsCounted(waits: seq<SyncItem>, holds: seq<SyncItem>)
    requires Rising(waits) && Rising(holds)
    ensures WaitEdgeCount(waits, holds) == |PairsIn(waits, holds)| + |JoinsIn(waits)|
  {
    hide Rising, HoldsOf;
    if waits == [] {
      assert PairsIn(waits, holds) == {} && JoinsIn(waits) == {};
    } else {
      var init, w := waits[..|waits| - 1], waits[|waits| - 1];
      assert waits == init + [w];
      LastIsNew(waits);
      PairsCounted(init, holds);
      PairsGrow(init, w, holds);
      JoinsGrow(init, w);
      HoldsCounted(holds, w.resource);
    }
  }

  /** Unfinished waits and what they are blocked by. */
  ghost function BlockedPairs(events: seq<SyncEvent>): set<(nat, nat)> {
    set i: nat, j: nat | i < |events| && j < |events| && Blocked(events, i, j) :: (i, j)
  }

  ghost function OpenJoins(events: seq<SyncEvent>): set<nat> {
    set i: nat | i < |events| && Joining(events, i)
  }

  /** One edge for every unfinished join, and one for every hold of the resource
      of every other unfinished wait. */
  ghost function WaitEdgeTotal(events: seq<SyncEvent>): nat {
    |BlockedPairs(events)| + |OpenJoins(events)|
  }

  lemma {:induction false} PairsAreBlocked(events: seq<SyncEvent>)
    ensures PairsIn(Run(events).waits, Run(events).holds) == BlockedPairs(events)
  {
    hide Run, WaitPlaces, HeldPlaces;
    var waits, holds := Run(events).waits, Run(events).holds;
    forall i: nat, j: nat | (i, j) in PairsIn(waits, holds)
      ensures (i, j) in BlockedPairs(events)
    {
      var w, h :| w in waits && h in holds && !w.join && h.resource == w.resource && (w.at, h.at) == (i, j);
      WaitsAreWaiting(events, w);
      HoldsAreHolding(events, h);
    }
    forall i: nat, j: nat | (i, j) in BlockedPairs(events)
      ensures (i, j) in PairsIn(waits, holds)
    {
      var w, h := WaitItem(events[i], i), HeldItem(events[j], j);
      WaitsAreWaiting(events, w);
      HoldsAreHolding(events, h);
    }
  }

  lemma {:induction false} JoinsAreCounted(events: seq<SyncEvent>)
    ensures JoinsIn(Run(events).waits) == OpenJoins(events)
  {
    hide Run, WaitPlaces;
    var waits := Run(events).waits;
    forall i: nat | i in JoinsIn(waits)
      ensures i in OpenJoins(events)
    {
      var w :| w in waits && w.join && w.at == i;
      WaitsAreWaiting(events, w);
    }
    forall i: nat | i in OpenJoins(events)
      ensures i in JoinsIn(waits)
    {
      WaitsAreWaiting(events, WaitItem(events[i], i));
    }
  }

  lemma {:induction false} WaitEdgesOverEvents(events: seq<SyncEvent>)
    ensures |WaitEdges(Run(events).waits, Run(events).holds)| == WaitEdgeTotal(events)
  {
    hide Run, WaitEdges, WaitEdgeCount, BlockedPairs, OpenJoins, PairsIn, JoinsIn, Rising, IsHeldItem, IsWaitItem;
    var waits, holds := Run(events).waits, Run(events).holds;
    TablesStayOk(events);
    WaitEdgesCounted(waits, holds);
    PairsCounted(waits, holds);
    PairsAreBlocked(events);
    JoinsAreCounted(events);
  }

  // ---------- The tables ----------

  lemma {:induction false} RemovedNotMore(items: seq<SyncItem>, thread: Name, resource: Name)
    ensures |RemoveLastMatch(items, thread, resource)| <= |items|
  {
    if items != [] {
      RemovedNotMore(items[..|items| - 1], thread, resource);
    }
  }

  lemma {:induction false} StepTables(s: SyncState, e: SyncEvent, at: nat)
    ensures |Step(s, e, at).holds| <= |s.holds| + 1 && |Step(s, e, at).waits| <= |s.waits| + 1
    ensures |Step(s, e, at).terminated| <= |s.terminated| + 1
  {
    hide ReportEach, RemoveLastMatch, HoldersOf, WaitersOn, ClosingLocks, OtherMutexWaits, TopOf, TopMismatch, Stack;
    RemovedNotMore(s.holds, e.thread, e.resource);
    RemovedNotMore(s.waits, e.thread, e.resource);
    RemovedNotMore(s.waits, e.resource, e.resource);
  }

  lemma {:induction false} OneItemPerEvent(events: seq<SyncEvent>)
    ensures |Run(events).holds| <= |events| && |Run(events).waits| <= |events| && |Run(events).terminated| <= |events|
  {
    hide Step;
    if events != [] {
      var n := |events| - 1;
      OneItemPerEvent(events[..n]);
      StepTables(Run(events[..n]), events[n], n);
    }
  }

  lemma {:induction false} JoinEdgesNotMore(waits: seq<SyncItem>)
    ensures |JoinEdges(waits)| <= |waits|
  {
    if waits != [] {
      JoinEdgesNotMore(waits[..|waits| - 1]);
    }
  }

  function Capacity(events: seq<SyncEvent>): nat {
    if events == [] then 1 else |events|
  }

  /** Everything the run and its end store has a place in the tables. */
  ghost predicate TablesSuffice(events: seq<SyncEvent>) {
    var s := Run(events);
    && |s.holds| <= Capacity(events) && |s.waits| <= Capacity(events) && |s.terminated| <= Capacity(events)
    && |s.lockEdges| <= Capacity(events) && |JoinEdges(s.waits)| <= Capacity(events)
    && |WaitEdges(s.waits, s.holds)| <= 2 * Capacity(events)
  }

  /** The tables suffice exactly when the acquires made while others are held,
      and the waits begun and not ended, give no more edges than that; the other
      tables always do. */
  lemma {:induction false} TablesSufficeIff(events: seq<SyncEvent>)
    ensures TablesSuffice(events)
            <==> LockEdgeCount(events) <= Capacity(events) && WaitEdgeTotal(events) <= 2 * Capacity(events)
  {
    hide Run, WaitEdgeTotal, WaitEdges, JoinEdges;
    LockEdgesCounted(events);
    WaitEdgesOverEvents(events);
    OneItemPerEvent(events);
    JoinEdgesNotMore(Run(events).waits);
  }

  /** While every acquiring thread holds at most one other lock, the lock edges fit. */
  lemma {:induction false} ShallowNestingFits(events: seq<SyncEvent>)
    requires forall i :: 0 <= i < |events| ==> Shallow(events, i)
    ensures LockEdgeCount(events) <= |events|
  {
    if events != [] {
      var n := |events| - 1;
      forall i | 0 <= i < n
        ensures Shallow(events[..n], i)
      {
        assert Shallow(events, i) && events[..n][..i] == events[..i];
      }
      ShallowNestingFits(events[..n]);
      assert Shallow(events, n);
    }
  }

  predicate Shallow(events: seq<SyncEvent>, i: nat)
    requires i < |events|
  {
    events[i].op == AcquireLock ==> OtherLocks(LocksHeld(events[..i], events[i].thread), events[i].resource) <= 1
  }
}
