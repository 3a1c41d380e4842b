/** What the synchronization findings mean over whole runs: lock-order cycles,
    wait and join cycles, and release order. */
module SyncTheorems {
  import opened Graphs
  import opened SyncReach
  import opened SyncSpec

  // ---------- Findings ----------

  lemma {:induction false} ReportRules(fs: seq<SyncFinding>, rule: SyncRule, from: Name, to: Name, at: nat, r: SyncRule)
    ensures HasRule(Report(fs, rule, from, to, at), r) <==> HasRule(fs, r) || r == rule
  {
    var f := SyncFinding(rule, from, to, at);
    assert forall x :: x in fs + [f] <==> x in fs || x == f;
  }

  lemma {:induction false} ReportEachRules(fs: seq<SyncFinding>, rule: SyncRule, pairs: seq<(Name, Name)>, at: nat,
                                           r: SyncRule)
    ensures HasRule(ReportEach(fs, rule, pairs, at), r) <==> HasRule(fs, r) || (r == rule && pairs != [])
  {
    hide HasRule, Report;
    if pairs != [] {
      var n := |pairs| - 1;
      ReportEachRules(fs, rule, pairs[..n], at, r);
      ReportRules(ReportEach(fs, rule, pairs[..n], at), rule, pairs[n].0, pairs[n].1, at, r);
    }
  }

  lemma {:induction false} ReportEvidence(fs: seq<SyncFinding>, rule: SyncRule, pair: (Name, Name), at: nat,
                                          r: SyncRule, from: Name, to: Name)
    ensures Reported(Report(fs, rule, pair.0, pair.1, at), r, from, to)
            <==> Reported(fs, r, from, to) || (r == rule && (from, to) == pair)
  {
    var f := SyncFinding(rule, pair.0, pair.1, at);
    assert forall x :: x in fs + [f] <==> x in fs || x == f;
    assert SameFinding(f, rule, pair.0, pair.1);
    if r == rule && (from, to) == pair {
      assert SameFinding(f, r, from, to) && f in fs + [f];
    }
  }

  lemma {:induction false} ReportEachEvidence(fs: seq<SyncFinding>, rule: SyncRule, pairs: seq<(Name, Name)>, at: nat,
                                              r: SyncRule, from: Name, to: Name)
    ensures Reported(ReportEach(fs, rule, pairs, at), r, from, to)
            <==> Reported(fs, r, from, to) || (r == rule && (from, to) in pairs)
  {
    hide Reported, Report;
    if pairs != [] {
      var n := |pairs| - 1;
      ReportEachEvidence(fs, rule, pairs[..n], at, r, from, to);
      ReportEvidence(ReportEach(fs, rule, pairs[..n], at), rule, pairs[n], at, r, from, to);
      assert pairs == pairs[..n] + [pairs[n]];
    }
  }

  // ---------- Locks held ----------

  /** Removing the last match takes the last occurrence off that thread's
      stack and leaves every other stack alone. */
  function RemoveLast(s: seq<Name>, x: Name): seq<Name> {
    if s == [] then []
    else if s[|s| - 1] == x then s[..|s| - 1]
    else RemoveLast(s[..|s| - 1], x) + [s[|s| - 1]]
  }

  lemma {:induction false} ReleaseOnStacks(holds: seq<SyncItem>, thread: Name, resource: Name, t: Name)
    ensures Stack(RemoveLastMatch(holds, thread, resource), t)
            == if t == thread then RemoveLast(Stack(holds, t), resource) else Stack(holds, t)
  {
    if holds != [] {
      var n := |holds| - 1;
      var last, init := holds[n], holds[..n];
      ReleaseOnStacks(init, thread, resource, t);
      var rest := Stack(init, t);
      assert rest + [] == rest;
      if !Matches(last, thread, resource) {
        assert (RemoveLastMatch(init, thread, resource) + [last])[..|RemoveLastMatch(init, thread, resource)|]
               == RemoveLastMatch(init, thread, resource);
      }
      if last.thread == t {
        assert (rest + [last.resource])[..|rest|] == rest;
      }
    }
  }

  /** The active holds are one stack per thread: an acquire pushes, a release
      removes the last occurrence, nothing else moves them. */
  lemma {:induction false} HeldStackLaw(events: seq<SyncEvent>, e: SyncEvent, t: Name)
    ensures Stack(Run(events + [e]).holds, t) == StackAfter(Stack(Run(events).holds, t), e, t)
  {
    assert (events + [e])[..|events|] == events;
    StepStack(Run(events), e, |events|, t);
  }

  function StackAfter(stack: seq<Name>, e: SyncEvent, t: Name): seq<Name> {
    if e.thread != t then stack
    else if e.op == AcquireLock then stack + [e.resource]
    else if e.op == ReleaseLock then RemoveLast(stack, e.resource)
    else stack
  }

  /** The locks a thread holds after some events, oldest first. */
  function LocksHeld(events: seq<SyncEvent>, t: Name): seq<Name> {
    if events == [] then [] else StackAfter(LocksHeld(events[..|events| - 1], t), events[|events| - 1], t)
  }

  lemma {:induction false} HoldsAreLocksHeld(events: seq<SyncEvent>, t: Name)
    ensures Stack(Run(events).holds, t) == LocksHeld(events, t)
  {
    hide Step, StackAfter;
    if events != [] {
      var n := |events| - 1;
      HoldsAreLocksHeld(events[..n], t);
      StepStack(Run(events[..n]), events[n], n, t);
    }
  }

  lemma {:induction false} StepStack(s: SyncState, e: SyncEvent, at: nat, t: Name)
    ensures Stack(Step(s, e, at).holds, t) == StackAfter(Stack(s.holds, t), e, t)
  {
    if e.op == AcquireLock {
      var item := SyncItem(false, e.thread, e.resource, NoName, at);
      assert (s.holds + [item])[..|s.holds|] == s.holds;
      assert Stack(s.holds, t) + [] == Stack(s.holds, t);
    } else if e.op == ReleaseLock {
      ReleaseOnStacks(s.holds, e.thread, e.resource, t);
    }
  }

  // ---------- One event ----------

  lemma {:induction false} StepRules(s: SyncState, e: SyncEvent, at: nat, r: SyncRule)
    ensures HasRule(Step(s, e, at).findings, r) <==> HasRule(s.findings, r) || r in RulesAt(s, e)
  {
    hide HasRule, ReportEach;
    var stack := Stack(s.holds, e.thread);
    match e.op
    case DestroyMutex =>
      ReportEachRules(s.findings, BusyMutexDestroyed,
                      HoldersOf(s.holds, e.resource) + WaitersOn(s.waits, e.resource), at, r);
    case AttemptTerminal => ReportEachRules(s.findings, ConsumedTwice, HoldersOf(s.terminated, e.resource), at, r);
    case BlockingOperation => ReportEachRules(s.findings, BlockedWhileHeld, TopOf(stack, e.resource), at, r);
    case AcquireLock =>
      ReportEachRules(s.findings, LockOrderCycle, ClosingLocks(EdgeSet(s.lockEdges), stack, e.resource), at, r);
    case ReleaseLock => ReportEachRules(s.findings, ReleaseOrder, TopMismatch(stack, e.resource), at, r);
    case BeginJoin => ReportEachRules(s.findings, JoinWhileHeld, TopOf(stack, e.resource), at, r);
    case BeginCondition =>
      ReportEachRules(s.findings, ConditionMutexes, OtherMutexWaits(s.waits, e.resource, e.related), at, r);
    case _ =>
  }

  /** The rules an event violates in a state. */
  ghost function RulesAt(s: SyncState, e: SyncEvent): set<SyncRule> {
    var stack := Stack(s.holds, e.thread);
    match e.op
    case DestroyMutex => if HoldersOf(s.holds, e.resource) + WaitersOn(s.waits, e.resource) != [] then
      {BusyMutexDestroyed} else {}
    case AttemptTerminal => if HoldersOf(s.terminated, e.resource) != [] then {ConsumedTwice} else {}
    case BlockingOperation => if stack != [] then {BlockedWhileHeld} else {}
    case AcquireLock => if ClosingLocks(EdgeSet(s.lockEdges), stack, e.resource) != [] then {LockOrderCycle} else {}
    case ReleaseLock => if stack != [] && stack[|stack| - 1] != e.resource then {ReleaseOrder} else {}
    case BeginJoin => if stack != [] then {JoinWhileHeld} else {}
    case BeginCondition => if OtherMutexWaits(s.waits, e.resource, e.related) != [] then {ConditionMutexes} else {}
    case _ => {}
  }

  ghost predicate Violates(events: seq<SyncEvent>, i: nat, r: SyncRule) {
    i < |events| && r in RulesAt(Run(events[..i]), events[i])
  }

  ghost predicate Violated(events: seq<SyncEvent>, r: SyncRule) {
    exists i :: Violates(events, i, r)
  }

  lemma {:induction false} ViolatedNext(events: seq<SyncEvent>, e: SyncEvent, r: SyncRule)
    ensures Violated(events + [e], r) <==> Violated(events, r) || r in RulesAt(Run(events), e)
  {
    var all, n := events + [e], |events|;
    assert all[..n] == events;
    assert forall i :: 0 <= i < n ==> all[..i] == events[..i];
    if i: nat :| Violates(events, i, r) {
      assert Violates(all, i, r);
    }
    if r in RulesAt(Run(events), e) {
      assert Violates(all, n, r);
    }
    if i: nat :| Violates(all, i, r) {
      assert i < n ==> Violates(events, i, r);
    }
  }

  lemma {:induction false} NothingYet(r: SyncRule)
    ensures !HasRule(Run([]).findings, r) && !Violated([], r)
  {}

  lemma {:induction false} RunRules(events: seq<SyncEvent>, r: SyncRule)
    ensures HasRule(Run(events).findings, r) <==> Violated(events, r)
  {
    hide HasRule, Violated, Step, RulesAt;
    if events == [] {
      NothingYet(r);
    } else {
      var n := |events| - 1;
      var init := events[..n];
      RunRules(init, r);
      StepRules(Run(init), events[n], n, r);
      ViolatedNext(init, events[n], r);
      assert init + [events[n]] == events;
    }
  }

  /** The end of the run adds only wait and join cycles. */
  lemma {:induction false} FinishRules(s: SyncState, k: nat, r: SyncRule)
    requires k <= |s.waits| && r != WaitCycle && r != JoinCycle
    ensures HasRule(FinishWaits(s, k), r) <==> HasRule(s.findings, r)
  {
    if k > 0 {
      FinishRules(s, k - 1, r);
      var before, wait := FinishWaits(s, k - 1), s.waits[k - 1];
      ReportEachRules(before, JoinCycle, JoinPairs(JoinEdges(s.waits), wait), wait.at, r);
      ReportEachRules(before, WaitCycle, FirstCyclingEdge(WaitEdges(s.waits, s.holds), 0, wait.thread), wait.at, r);
    }
  }

  /** A rule checked event by event is reported exactly when some event of the
      run violates it: in particular ReleaseOrder exactly when some release
      meets a non-empty stack of its thread whose top is another lock. */
  lemma {:induction false} EventRulesExact(events: seq<SyncEvent>, r: SyncRule)
    requires r != WaitCycle && r != JoinCycle
    ensures HasRule(Analyze(events), r) <==> exists i :: Violates(events, i, r)
  {
    RunRules(events, r);
    FinishRules(Run(events), |Run(events).waits|, r);
  }

  // ---------- Lock order ----------

  /** (a, b): while some thread held a, it acquired the different lock b. */
  ghost predicate OrderedLocks(events: seq<SyncEvent>, i: nat, a: Name, b: Name) {
    i < |events| && events[i].op == AcquireLock && b == events[i].resource
    && a != b && a in LocksHeld(events[..i], events[i].thread)
  }

  lemma {:induction false} NewLockEdgesSet(stack: seq<Name>, resource: Name)
    ensures forall a, b ::
              (a, b) in EdgeSet(NewLockEdges(stack, resource)) <==> a in stack && a != resource && b == resource
  {
    if stack != [] {
      var n := |stack| - 1;
      NewLockEdgesSet(stack[..n], resource);
      assert stack == stack[..n] + [stack[n]];
      if stack[n] != resource {
        EdgeSetAppend(NewLockEdges(stack[..n], resource), SyncEdge(stack[n], resource));
      }
    }
  }

  lemma {:induction false} EdgeSetConcat<T>(xs: seq<SyncEdge<T>>, ys: seq<SyncEdge<T>>)
    ensures EdgeSet(xs + ys) == EdgeSet(xs) + EdgeSet(ys)
  {
    assert forall e :: e in xs + ys <==> e in xs || e in ys;
  }

  lemma {:induction false} StepLockEdges(s: SyncState, e: SyncEvent, at: nat, a: Name, b: Name)
    ensures (a, b) in EdgeSet(Step(s, e, at).lockEdges) <==>
              (a, b) in EdgeSet(s.lockEdges)
              || (e.op == AcquireLock && b == e.resource && a != b && a in Stack(s.holds, e.thread))
  {
    hide ReportEach, RemoveLastMatch, HoldersOf, WaitersOn, ClosingLocks, OtherMutexWaits, TopOf, TopMismatch;
    var stack := Stack(s.holds, e.thread);
    NewLockEdgesSet(stack, e.resource);
    EdgeSetConcat(s.lockEdges, NewLockEdges(stack, e.resource));
  }

  ghost predicate EverOrdered(events: seq<SyncEvent>, a: Name, b: Name) {
    exists i :: OrderedLocks(events, i, a, b)
  }

  lemma {:induction false} EverOrderedNext(events: seq<SyncEvent>, e: SyncEvent, a: Name, b: Name)
    ensures EverOrdered(events + [e], a, b) <==> EverOrdered(events, a, b) || OrderedLocks(events + [e], |events|, a, b)
  {
    var all, n := events + [e], |events|;
    assert forall i :: 0 <= i < n ==> all[..i] == events[..i];
    if i: nat :| OrderedLocks(events, i, a, b) {
      assert OrderedLocks(all, i, a, b);
    }
    if i: nat :| OrderedLocks(all, i, a, b) {
      assert i < n ==> OrderedLocks(events, i, a, b);
    }
  }

  lemma {:induction false} NoOrderYet(a: Name, b: Name)
    ensures (a, b) !in EdgeSet(Run([]).lockEdges) && !EverOrdered([], a, b)
  {}

  /** The lock edges are the lock-order relation of the run. */
  lemma {:induction false} LockEdgesAreLockOrder(events: seq<SyncEvent>, a: Name, b: Name)
    ensures (a, b) in EdgeSet(Run(events).lockEdges) <==> EverOrdered(events, a, b)
  {
    hide Step, EdgeSet, EverOrdered, LocksHeld;
    if events == [] {
      NoOrderYet(a, b);
    } else {
      var n := |events| - 1;
      var init, e := events[..n], events[n];
      LockEdgesAreLockOrder(init, a, b);
      StepLockEdges(Run(init), e, n, a, b);
      HoldsAreLocksHeld(init, e.thread);
      EverOrderedNext(init, e, a, b);
      assert init + [e] == events;
    }
  }

  /** Edges into a lock do not change what that lock reaches. */
  lemma {:induction false} EdgesIntoSource(g: set<(Name, Name)>, a: Name, r: Name, x: Name)
    ensures Reaches(g + {(a, r)}, r, x) <==> Reaches(g, r, x)
  {
    if Reaches(g, r, x) {
      ReachesMonotone(g, g + {(a, r)}, r, x);
    }
    if Reaches(g + {(a, r)}, r, x) {
      var p :| WalkBetween(g + {(a, r)}, p, r, x);
      ReachesWithoutEdge(g, a, r, p);
    }
  }

  /** One acquire closes a cycle exactly when one of the held locks is reached
      from the new lock beforehand. */
  lemma {:induction false} AcquireClosesCycle(edges: seq<SyncEdge<Name>>, stack: seq<Name>, r: Name)
    ensures Cyclic(EdgeSet(edges + NewLockEdges(stack, r)))
            <==> Cyclic(EdgeSet(edges)) || ClosingLocks(EdgeSet(edges), stack, r) != []
    ensures forall x :: Reaches(EdgeSet(edges + NewLockEdges(stack, r)), r, x) <==> Reaches(EdgeSet(edges), r, x)
  {
    if stack == [] {
      assert edges + [] == edges;
    } else {
      var n := |stack| - 1;
      var a, init := stack[n], stack[..n];
      AcquireClosesCycle(edges, init, r);
      var before := edges + NewLockEdges(init, r);
      if a == r {
        assert edges + (NewLockEdges(init, r) + []) == before;
      } else {
        assert edges + (NewLockEdges(init, r) + [SyncEdge(a, r)]) == before + [SyncEdge(a, r)];
        EdgeSetAppend(before, SyncEdge(a, r));
        CyclicAfterEdge(EdgeSet(before), a, r);
        forall x {
          EdgesIntoSource(EdgeSet(before), a, r, x);
        }
      }
    }
  }

  lemma {:induction false} NoEdgesNoCycle()
    ensures !Cyclic(EdgeSet(Run([]).lockEdges))
  {
    var g := EdgeSet(Run([]).lockEdges);
    if Cyclic(g) {
      var u :| OnCycle(g, u);
      OnCycleIffSuccessorReaches(g, u);
    }
  }

  lemma {:induction false} StepLockOrder(s: SyncState, e: SyncEvent, at: nat)
    requires HasRule(s.findings, LockOrderCycle) <==> Cyclic(EdgeSet(s.lockEdges))
    ensures HasRule(Step(s, e, at).findings, LockOrderCycle) <==> Cyclic(EdgeSet(Step(s, e, at).lockEdges))
  {
    hide HasRule, Cyclic, EdgeSet;
    StepRules(s, e, at, LockOrderCycle);
    AcquireClosesCycle(s.lockEdges, Stack(s.holds, e.thread), e.resource);
  }

  /** The incremental check is exact: a lock-order finding exists exactly when
      the lock-order graph of the whole run has a cycle. */
  lemma {:induction false} RunLockOrder(events: seq<SyncEvent>)
    ensures HasRule(Run(events).findings, LockOrderCycle) <==> Cyclic(EdgeSet(Run(events).lockEdges))
  {
    hide HasRule, Cyclic, EdgeSet, Step;
    if events == [] {
      NothingYet(LockOrderCycle);
      NoEdgesNoCycle();
    } else {
      var n := |events| - 1;
      RunLockOrder(events[..n]);
      StepLockOrder(Run(events[..n]), events[n], n);
    }
  }

  lemma {:induction false} LockOrderExact(events: seq<SyncEvent>)
    ensures HasRule(Analyze(events), LockOrderCycle) <==> Cyclic(EdgeSet(Run(events).lockEdges))
    ensures forall a, b :: (a, b) in EdgeSet(Run(events).lockEdges) <==> exists i :: OrderedLocks(events, i, a, b)
  {
    RunLockOrder(events);
    FinishRules(Run(events), |Run(events).waits|, LockOrderCycle);
    forall a, b {
      LockEdgesAreLockOrder(events, a, b);
    }
  }

  // ---------- Cycles at the end of the run ----------

  /** An unfinished join waits for its target thread; any other unfinished wait
      waits for every thread that holds its resource. */
  ghost predicate WaitsFor(waits: seq<SyncItem>, holds: seq<SyncItem>, a: Name, b: Name) {
    exists w :: w in waits && w.thread == a && (if w.join then w.target == b else HeldBy(holds, w.resource, b))
  }

  ghost predicate HeldBy(holds: seq<SyncItem>, resource: Name, thread: Name) {
    exists h :: h in holds && h.resource == resource && h.thread == thread
  }

  ghost predicate Joins(waits: seq<SyncItem>, a: Name, b: Name) {
    exists w :: w in waits && w.join && w.thread == a && w.target == b
  }

  lemma {:induction false} HolderEdgesSet(holds: seq<SyncItem>, wait: SyncItem, a: Name, b: Name)
    ensures (a, b) in EdgeSet(HolderEdges(holds, wait)) <==> a == wait.thread && HeldBy(holds, wait.resource, b)
  {
    if holds != [] {
      var n := |holds| - 1;
      HolderEdgesSet(holds[..n], wait, a, b);
      assert holds == holds[..n] + [holds[n]];
      EdgeSetAppend(HolderEdges(holds[..n], wait), SyncEdge(wait.thread, holds[n].thread));
    }
  }

  lemma {:induction false} WaitEdgesSet(waits: seq<SyncItem>, holds: seq<SyncItem>, a: Name, b: Name)
    ensures (a, b) in EdgeSet(WaitEdges(waits, holds)) <==> WaitsFor(waits, holds, a, b)
  {
    if waits != [] {
      var n := |waits| - 1;
      var init, w := waits[..n], waits[n];
      WaitEdgesSet(init, holds, a, b);
      HolderEdgesSet(holds, w, a, b);
      var added := if w.join then [SyncEdge(w.thread, w.target)] else HolderEdges(holds, w);
      EdgeSetConcat(WaitEdges(init, holds), added);
      assert forall x :: x in waits <==> x in init || x == w;
    }
  }

  lemma {:induction false} JoinEdgesSet(waits: seq<SyncItem>, a: Name, b: Name)
    ensures (a, b) in EdgeSet(JoinEdges(waits)) <==> Joins(waits, a, b)
  {
    if waits != [] {
      var n := |waits| - 1;
      var init, w := waits[..n], waits[n];
      JoinEdgesSet(init, a, b);
      EdgeSetAppend(JoinEdges(init), SyncEdge(w.thread, w.target));
      assert forall x :: x in waits <==> x in init || x == w;
    }
  }

  lemma {:induction false} FirstCyclingEdgeFound(edges: seq<SyncEdge<Name>>, k: nat, t: Name)
    requires k <= |edges|
    ensures forall p :: p in FirstCyclingEdge(edges, k, t) ==> p.0 == t
    ensures FirstCyclingEdge(edges, k, t) != [] <==>
            exists i :: k <= i < |edges| && edges[i].from == t && Reaches(EdgeSet(edges), edges[i].to, t)
    decreases |edges| - k
  {
    if k < |edges| {
      FirstCyclingEdgeFound(edges, k + 1, t);
    }
  }

  lemma {:induction false} FirstCyclingEdgeMeansOnCycle(edges: seq<SyncEdge<Name>>, t: Name)
    ensures FirstCyclingEdge(edges, 0, t) != [] <==> OnCycle(EdgeSet(edges), t)
  {
    FirstCyclingEdgeFound(edges, 0, t);
    OnCycleIffSuccessorReaches(EdgeSet(edges), t);
    if v :| (t, v) in EdgeSet(edges) && Reaches(EdgeSet(edges), v, t) {
      var e :| e in edges && (e.from, e.to) == (t, v);
      var i :| 0 <= i < |edges| && edges[i] == e;
    }
    if i :| 0 <= i < |edges| && edges[i].from == t && Reaches(EdgeSet(edges), edges[i].to, t) {
      assert edges[i] in edges;
    }
  }

  ghost predicate WaitCycleReported(fs: seq<SyncFinding>, thread: Name) {
    exists to :: Reported(fs, WaitCycle, thread, to)
  }

  /** Some wait other than a join, begun by the thread, is unfinished. */
  ghost predicate HasWait(waits: seq<SyncItem>, thread: Name) {
    exists w :: w in waits && !w.join && w.thread == thread
  }

  lemma {:induction false} NothingReported(fs: seq<SyncFinding>, r: SyncRule)
    requires !HasRule(fs, r)
    ensures forall from, to :: !Reported(fs, r, from, to)
  {}

  lemma {:induction false} FinishWaitStep(s: SyncState, k: nat, t: Name, to: Name)
    requires 0 < k <= |s.waits|
    ensures Reported(FinishWaits(s, k), WaitCycle, t, to) <==>
              Reported(FinishWaits(s, k - 1), WaitCycle, t, to)
              || (!s.waits[k - 1].join
                  && (t, to) in FirstCyclingEdge(WaitEdges(s.waits, s.holds), 0, s.waits[k - 1].thread))
  {
    var before, w := FinishWaits(s, k - 1), s.waits[k - 1];
    if w.join {
      ReportEachEvidence(before, JoinCycle, JoinPairs(JoinEdges(s.waits), w), w.at, WaitCycle, t, to);
    } else {
      ReportEachEvidence(before, WaitCycle, FirstCyclingEdge(WaitEdges(s.waits, s.holds), 0, w.thread), w.at, WaitCycle,
                         t, to);
    }
  }

  lemma {:induction false} FinishWaitCycles(s: SyncState, k: nat, t: Name)
    requires k <= |s.waits| && !HasRule(s.findings, WaitCycle)
    ensures WaitCycleReported(FinishWaits(s, k), t)
            <==> HasWait(s.waits[..k], t) && FirstCyclingEdge(WaitEdges(s.waits, s.holds), 0, t) != []
  {
    if k == 0 {
      NothingReported(s.findings, WaitCycle);
    } else {
      FinishWaitCycles(s, k - 1, t);
      var w := s.waits[k - 1];
      assert forall x :: x in s.waits[..k] <==> x in s.waits[..k - 1] || x == w;
      var pairs := FirstCyclingEdge(WaitEdges(s.waits, s.holds), 0, w.thread);
      FirstCyclingEdgeFound(WaitEdges(s.waits, s.holds), 0, w.thread);
      if WaitCycleReported(FinishWaits(s, k), t) {
        var to :| Reported(FinishWaits(s, k), WaitCycle, t, to);
        FinishWaitStep(s, k, t, to);
      }
      if WaitCycleReported(FinishWaits(s, k - 1), t) {
        var to :| Reported(FinishWaits(s, k - 1), WaitCycle, t, to);
        FinishWaitStep(s, k, t, to);
      }
      if !w.join && w.thread == t && pairs != [] {
        assert pairs[0] in pairs && pairs[0] == (t, pairs[0].1);
        FinishWaitStep(s, k, t, pairs[0].1);
      }
    }
  }

  lemma {:induction false} NoEventReportsCycles(events: seq<SyncEvent>)
    ensures !HasRule(Run(events).findings, WaitCycle) && !HasRule(Run(events).findings, JoinCycle)
  {
    RunRules(events, WaitCycle);
    RunRules(events, JoinCycle);
  }

  /** A thread is reported in a wait cycle exactly when it has an unfinished
      wait other than a join and lies on a cycle of the wait-for graph. */
  lemma {:induction false} WaitCycleExact(events: seq<SyncEvent>, t: Name)
    ensures WaitCycleReported(Analyze(events), t)
            <==> HasWait(Run(events).waits, t) && OnCycle(EdgeSet(WaitEdges(Run(events).waits, Run(events).holds)), t)
    ensures forall a, b :: (a, b) in EdgeSet(WaitEdges(Run(events).waits, Run(events).holds))
                           <==> WaitsFor(Run(events).waits, Run(events).holds, a, b)
  {
    var s := Run(events);
    NoEventReportsCycles(events);
    FinishWaitCycles(s, |s.waits|, t);
    assert s.waits[..|s.waits|] == s.waits;
    FirstCyclingEdgeMeansOnCycle(WaitEdges(s.waits, s.holds), t);
    forall a, b {
      WaitEdgesSet(s.waits, s.holds, a, b);
    }
  }

  lemma {:induction false} FinishJoinCycles(s: SyncState, k: nat)
    requires k <= |s.waits| && !HasRule(s.findings, JoinCycle)
    ensures HasRule(FinishWaits(s, k), JoinCycle)
            <==> exists w :: w in s.waits[..k] && w.join && Reaches(EdgeSet(JoinEdges(s.waits)), w.target, w.thread)
  {
    if k > 0 {
      FinishJoinCycles(s, k - 1);
      var before, w := FinishWaits(s, k - 1), s.waits[k - 1];
      assert forall x :: x in s.waits[..k] <==> x in s.waits[..k - 1] || x == w;
      ReportEachRules(before, JoinCycle, JoinPairs(JoinEdges(s.waits), w), w.at, JoinCycle);
      ReportEachRules(before, WaitCycle, FirstCyclingEdge(WaitEdges(s.waits, s.holds), 0, w.thread), w.at, JoinCycle);
    }
  }

  /** A join cycle is reported exactly when the graph of unfinished joins has a
      cycle; a thread joining itself is one. */
  lemma {:induction false} JoinCycleExact(events: seq<SyncEvent>)
    ensures HasRule(Analyze(events), JoinCycle) <==> Cyclic(EdgeSet(JoinEdges(Run(events).waits)))
    ensures forall a, b :: (a, b) in EdgeSet(JoinEdges(Run(events).waits)) <==> Joins(Run(events).waits, a, b)
  {
    var s := Run(events);
    var g := EdgeSet(JoinEdges(s.waits));
    NoEventReportsCycles(events);
    FinishJoinCycles(s, |s.waits|);
    assert s.waits[..|s.waits|] == s.waits;
    forall a, b {
      JoinEdgesSet(s.waits, a, b);
    }
    if w :| w in s.waits && w.join && Reaches(g, w.target, w.thread) {
      assert Joins(s.waits, w.thread, w.target);
      ReachesStep(g, w.thread, w.target, w.thread);
    }
    if Cyclic(g) {
      var u :| OnCycle(g, u);
      OnCycleIffSuccessorReaches(g, u);
      var v :| (u, v) in g && Reaches(g, v, u);
      assert Joins(s.waits, u, v);
    }
  }
}
