/** Wait and join cycles, told from the event list alone: from the waits begun
    and not ended and the locks acquired and not released. */
module SyncWaits {
  import opened Graphs
  import opened SyncPlaces
  import opened SyncReach
  import opened SyncSpec
  import opened SyncTheorems

  // ---------- The graphs ----------

  /** Event i began a join that is unfinished. */
  predicate Joining(events: seq<SyncEvent>, i: nat) {
    Waiting(events, i) && i < |events| && events[i].op == BeginJoin
  }

  /** Event i began another wait, which is unfinished, for what event j acquired
      and still holds. */
  predicate Blocked(events: seq<SyncEvent>, i: nat, j: nat) {
    && Waiting(events, i) && i < |events| && events[i].op != BeginJoin
    && Holding(events, j) && j < |events| && events[i].resource == events[j].resource
  }

  /** A thread that is joined waits for the target; a blocked thread waits for
      the holder. */
  ghost function WaitGraph(events: seq<SyncEvent>): set<(Name, Name)> {
    JoinGraph(events)
    + set i: nat, j: nat | i < |events| && j < |events| && Blocked(events, i, j) :: (events[i].thread, events[j].thread)
  }

  ghost function JoinGraph(events: seq<SyncEvent>): set<(Name, Name)> {
    set i: nat | i < |events| && Joining(events, i) :: (events[i].resource, events[i].related)
  }

  // ---------- The tables give the same graphs ----------

  lemma {:induction false} JoinsAreJoining(events: seq<SyncEvent>, a: Name, b: Name)
    ensures Joins(Run(events).waits, a, b) <==> (a, b) in JoinGraph(events)
  {
    hide Run, WaitPlaces;
    var waits := Run(events).waits;
    if w :| w in waits && w.join && w.thread == a && w.target == b {
      WaitsAreWaiting(events, w);
      assert Joining(events, w.at);
    }
    if (a, b) in JoinGraph(events) {
      var i: nat :| i < |events| && Joining(events, i) && (events[i].resource, events[i].related) == (a, b);
      WaitsAreWaiting(events, WaitItem(events[i], i));
    }
  }

  lemma {:induction false} BlockedInTables(events: seq<SyncEvent>, i: nat, j: nat)
    requires Blocked(events, i, j)
    ensures WaitsFor(Run(events).waits, Run(events).holds, events[i].thread, events[j].thread)
  {
    hide Run, WaitPlaces, HeldPlaces;
    var w, h := WaitItem(events[i], i), HeldItem(events[j], j);
    WaitsAreWaiting(events, w);
    HoldsAreHolding(events, h);
    assert HeldBy(Run(events).holds, w.resource, h.thread);
  }

  lemma {:induction false} BlockedByTables(events: seq<SyncEvent>, w: SyncItem, b: Name)
    requires w in Run(events).waits && !w.join && HeldBy(Run(events).holds, w.resource, b)
    ensures (w.thread, b) in WaitGraph(events)
  {
    hide Run, WaitPlaces, HeldPlaces, JoinGraph;
    var h :| h in Run(events).holds && h.resource == w.resource && h.thread == b;
    WaitsAreWaiting(events, w);
    HoldsAreHolding(events, h);
    assert Blocked(events, w.at, h.at);
  }

  lemma {:induction false} WaitsForIsWaitGraph(events: seq<SyncEvent>, a: Name, b: Name)
    ensures WaitsFor(Run(events).waits, Run(events).holds, a, b) <==> (a, b) in WaitGraph(events)
  {
    hide Run, Waiting, Holding, JoinGraph, HeldBy;
    var waits, holds := Run(events).waits, Run(events).holds;
    JoinsAreJoining(events, a, b);
    if w :| w in waits && w.thread == a && (if w.join then w.target == b else HeldBy(holds, w.resource, b)) {
      if w.join {
        assert Joins(waits, a, b);
      } else {
        BlockedByTables(events, w, b);
      }
    }
    if (a, b) in WaitGraph(events) {
      if (a, b) in JoinGraph(events) {
        var w :| w in waits && w.join && w.thread == a && w.target == b;
      } else {
        var i: nat, j: nat :| i < |events| && j < |events| && Blocked(events, i, j)
                              && (events[i].thread, events[j].thread) == (a, b);
        BlockedInTables(events, i, j);
      }
    }
  }

  /** The thread began a wait other than a join that is unfinished. */
  ghost predicate WaitsItself(events: seq<SyncEvent>, t: Name) {
    exists i: nat :: BeganWait(events, i, t)
  }

  predicate BeganWait(events: seq<SyncEvent>, i: nat, t: Name) {
    Waiting(events, i) && i < |events| && events[i].op != BeginJoin && events[i].thread == t
  }

  lemma {:induction false} HasWaitMeansBegan(events: seq<SyncEvent>, t: Name)
    ensures HasWait(Run(events).waits, t) <==> WaitsItself(events, t)
  {
    hide Run, WaitPlaces;
    var waits := Run(events).waits;
    if w :| w in waits && !w.join && w.thread == t {
      WaitsAreWaiting(events, w);
      assert BeganWait(events, w.at, t);
    }
    if i: nat :| BeganWait(events, i, t) {
      WaitsAreWaiting(events, WaitItem(events[i], i));
    }
  }

  // ---------- The findings ----------

  lemma {:induction false} SameGraph(g: set<(Name, Name)>, h: set<(Name, Name)>)
    requires forall a, b :: (a, b) in g <==> (a, b) in h
    ensures g == h
  {
    forall p: (Name, Name)
      ensures p in g <==> p in h
    {
      assert p == (p.0, p.1);
    }
  }

  /** A thread is reported in a wait cycle exactly when it began a wait that is
      unfinished and lies on a cycle of the graph of waits. */
  lemma {:induction false} WaitCyclesOverEvents(events: seq<SyncEvent>, t: Name)
    ensures WaitCycleReported(Analyze(events), t) <==> WaitsItself(events, t) && OnCycle(WaitGraph(events), t)
  {
    hide Run, Analyze, WaitGraph, WaitsItself, WaitCycleReported, HasWait, OnCycle, WaitsFor, EdgeSet, WaitEdges;
    WaitCycleExact(events, t);
    HasWaitMeansBegan(events, t);
    var g := EdgeSet(WaitEdges(Run(events).waits, Run(events).holds));
    forall a, b
      ensures (a, b) in g <==> (a, b) in WaitGraph(events)
    {
      WaitsForIsWaitGraph(events, a, b);
    }
    SameGraph(g, WaitGraph(events));
  }

  /** A join cycle is reported exactly when the unfinished joins form a cycle. */
  lemma {:induction false} JoinCyclesOverEvents(events: seq<SyncEvent>)
    ensures HasRule(Analyze(events), JoinCycle) <==> Cyclic(JoinGraph(events))
  {
    hide Run, Analyze, JoinGraph, HasRule, Cyclic, Joins, EdgeSet, JoinEdges;
    JoinCycleExact(events);
    var g := EdgeSet(JoinEdges(Run(events).waits));
    forall a, b
      ensures (a, b) in g <==> (a, b) in JoinGraph(events)
    {
      JoinsAreJoining(events, a, b);
    }
    SameGraph(g, JoinGraph(events));
  }
}
