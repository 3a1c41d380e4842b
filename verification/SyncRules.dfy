/** The rules that single events break, told from the event list alone: from
    the locks a thread has acquired and not released, the waits it has begun and
    not ended, and the threads already consumed. */
module SyncRules {
  import opened SyncPlaces
  import opened SyncSpec
  import opened SyncTheorems

  // ---------- Members of the tables ----------

  lemma {:induction false} SomeHolder(holds: seq<SyncItem>, x: Name)
    ensures HoldersOf(holds, x) != [] <==> exists h :: h in holds && h.resource == x
  {
    if holds != [] {
      var n := |holds| - 1;
      SomeHolder(holds[..n], x);
      assert forall h :: h in holds <==> h in holds[..n] || h == holds[n];
    }
  }

  lemma {:induction false} SomeWaiter(waits: seq<SyncItem>, x: Name)
    ensures WaitersOn(waits, x) != [] <==> exists w :: w in waits && (w.resource == x || w.target == x)
  {
    if waits != [] {
      var n := |waits| - 1;
      SomeWaiter(waits[..n], x);
      assert forall w :: w in waits <==> w in waits[..n] || w == waits[n];
    }
  }

  lemma {:induction false} SomeOtherMutex(waits: seq<SyncItem>, c: Name, m: Name)
    ensures OtherMutexWaits(waits, c, m) != [] <==> exists w :: w in waits && w.resource == c && w.target != m
  {
    if waits != [] {
      var n := |waits| - 1;
      SomeOtherMutex(waits[..n], c, m);
      assert forall w :: w in waits <==> w in waits[..n] || w == waits[n];
    }
  }

  // ---------- The tables and the events ----------

  /** Some thread holds x. */
  ghost predicate Held(events: seq<SyncEvent>, x: Name) {
    exists t :: x in LocksHeld(events, t)
  }

  /** Some unfinished wait is for x, or gives x as its mutex or target. */
  ghost predicate WaitedFor(events: seq<SyncEvent>, x: Name) {
    exists i: nat :: WaitsFor(events, i, x)
  }

  predicate WaitsFor(events: seq<SyncEvent>, i: nat, x: Name) {
    Waiting(events, i) && i < |events| && (events[i].resource == x || TargetOf(events[i]) == x)
  }

  /** Some unfinished wait on the condition c gives another mutex than m. */
  ghost predicate OtherMutex(events: seq<SyncEvent>, c: Name, m: Name) {
    exists i: nat :: GivesOther(events, i, c, m)
  }

  predicate GivesOther(events: seq<SyncEvent>, i: nat, c: Name, m: Name) {
    Waiting(events, i) && i < |events| && events[i].resource == c && TargetOf(events[i]) != m
  }

  ghost predicate Consumed(events: seq<SyncEvent>, x: Name) {
    exists j :: 0 <= j < |events| && events[j].op == EndJoinable && events[j].resource == x
  }

  lemma {:induction false} HoldersAreHeld(events: seq<SyncEvent>, x: Name)
    ensures HoldersOf(Run(events).holds, x) != [] <==> Held(events, x)
  {
    var holds := Run(events).holds;
    SomeHolder(holds, x);
    if h :| h in holds && h.resource == x {
      InStack(holds, h.thread, x);
      HoldsAreLocksHeld(events, h.thread);
    }
    if t :| x in LocksHeld(events, t) {
      HoldsAreLocksHeld(events, t);
      InStack(holds, t, x);
    }
  }

  lemma {:induction false} WaitersAreWaiting(events: seq<SyncEvent>, x: Name)
    ensures WaitersOn(Run(events).waits, x) != [] <==> WaitedFor(events, x)
  {
    hide Run, WaitPlaces;
    var waits := Run(events).waits;
    SomeWaiter(waits, x);
    if w :| w in waits && (w.resource == x || w.target == x) {
      WaitsAreWaiting(events, w);
      assert WaitsFor(events, w.at, x);
    }
    if i: nat :| WaitsFor(events, i, x) {
      WaitsAreWaiting(events, WaitItem(events[i], i));
    }
  }

  lemma {:induction false} OthersAreUnfinished(events: seq<SyncEvent>, c: Name, m: Name)
    ensures OtherMutexWaits(Run(events).waits, c, m) != [] <==> OtherMutex(events, c, m)
  {
    hide Run, WaitPlaces;
    var waits := Run(events).waits;
    SomeOtherMutex(waits, c, m);
    if w :| w in waits && w.resource == c && w.target != m {
      WaitsAreWaiting(events, w);
      assert GivesOther(events, w.at, c, m);
    }
    if i: nat :| GivesOther(events, i, c, m) {
      WaitsAreWaiting(events, WaitItem(events[i], i));
    }
  }

  lemma {:induction false} StepTerminated(s: SyncState, e: SyncEvent, at: nat, x: Name)
    ensures HoldersOf(Step(s, e, at).terminated, x) != []
            <==> HoldersOf(s.terminated, x) != [] || (e.op == EndJoinable && e.resource == x)
  {
    hide ReportEach, RemoveLastMatch, WaitersOn, ClosingLocks, OtherMutexWaits, TopOf, TopMismatch, Stack;
    if e.op == EndJoinable {
      var item := SyncItem(false, e.thread, e.resource, NoName, at);
      assert (s.terminated + [item])[..|s.terminated|] == s.terminated;
    }
  }

  lemma {:induction false} TerminatedAreConsumed(events: seq<SyncEvent>, x: Name)
    ensures HoldersOf(Run(events).terminated, x) != [] <==> Consumed(events, x)
  {
    hide Step;
    if events != [] {
      var n := |events| - 1;
      TerminatedAreConsumed(events[..n], x);
      StepTerminated(Run(events[..n]), events[n], n, x);
      assert forall j :: 0 <= j < n ==> events[..n][j] == events[j];
    }
  }

  // ---------- The rules ----------

  /** Event i breaks rule r, given the events before it. */
  ghost predicate Breaks(events: seq<SyncEvent>, i: nat, r: SyncRule) {
    i < |events|
    && var e, before := events[i], events[..i];
       var held := LocksHeld(before, e.thread);
       match r
       case ReleaseOrder => e.op == ReleaseLock && held != [] && held[|held| - 1] != e.resource
       case JoinWhileHeld => e.op == BeginJoin && held != []
       case BlockedWhileHeld => e.op == BlockingOperation && held != []
       case ConsumedTwice => e.op == AttemptTerminal && Consumed(before, e.resource)
       case BusyMutexDestroyed => e.op == DestroyMutex && (Held(before, e.resource) || WaitedFor(before, e.resource))
       case ConditionMutexes => e.op == BeginCondition && OtherMutex(before, e.resource, e.related)
       case _ => false
  }

  predicate OfOneEvent(r: SyncRule) {
    r != LockOrderCycle && r != WaitCycle && r != JoinCycle
  }

  lemma {:induction false} BreaksIsViolates(events: seq<SyncEvent>, i: nat, r: SyncRule)
    requires OfOneEvent(r) && i < |events|
    ensures Breaks(events, i, r) <==> Violates(events, i, r)
  {
    hide Held, WaitedFor, OtherMutex, Consumed, Run, LocksHeld, HoldersOf, WaitersOn, OtherMutexWaits, Stack,
         ClosingLocks;
    var e, before := events[i], events[..i];
    HoldsAreLocksHeld(before, e.thread);
    HoldersAreHeld(before, e.resource);
    WaitersAreWaiting(before, e.resource);
    OthersAreUnfinished(before, e.resource, e.related);
    TerminatedAreConsumed(before, e.resource);
  }

  /** A rule of single events is reported exactly when some event breaks it. */
  lemma {:induction false} EventRulesOverEvents(events: seq<SyncEvent>, r: SyncRule)
    requires OfOneEvent(r)
    ensures HasRule(Analyze(events), r) <==> exists i: nat :: Breaks(events, i, r)
  {
    hide Breaks, Violates, HasRule, Analyze;
    EventRulesExact(events, r);
    if i: nat :| Breaks(events, i, r) {
      BreaksInRange(events, i, r);
      BreaksIsViolates(events, i, r);
    }
    if i: nat :| Violates(events, i, r) {
      ViolatesInRange(events, i, r);
      BreaksIsViolates(events, i, r);
    }
  }

  ghost predicate ReleasesOutOfOrder(events: seq<SyncEvent>, i: nat) {
    i < |events| && events[i].op == ReleaseLock
    && var held := LocksHeld(events[..i], events[i].thread);
       held != [] && held[|held| - 1] != events[i].resource
  }

  /** Releases out of order: the thread holds locks and its newest is another. */
  lemma {:induction false} ReleaseOrderExact(events: seq<SyncEvent>)
    ensures HasRule(Analyze(events), ReleaseOrder) <==> exists i: nat :: ReleasesOutOfOrder(events, i)
  {
    hide HasRule, Analyze, LocksHeld;
    EventRulesOverEvents(events, ReleaseOrder);
    if i: nat :| Breaks(events, i, ReleaseOrder) {
      assert ReleasesOutOfOrder(events, i);
    }
    if i: nat :| ReleasesOutOfOrder(events, i) {
      assert Breaks(events, i, ReleaseOrder);
    }
  }

  ghost predicate ConsumesAgain(events: seq<SyncEvent>, j: nat, i: nat) {
    j < i < |events| && events[j].op == EndJoinable && events[i].op == AttemptTerminal
      && events[j].resource == events[i].resource
  }

  /** A thread is consumed twice: an attempt follows the end of the same thread. */
  lemma {:induction false} ConsumedTwiceExact(events: seq<SyncEvent>)
    ensures HasRule(Analyze(events), ConsumedTwice) <==> exists j: nat, i: nat :: ConsumesAgain(events, j, i)
  {
    hide HasRule, Analyze, LocksHeld;
    EventRulesOverEvents(events, ConsumedTwice);
    if i: nat :| Breaks(events, i, ConsumedTwice) {
      var j: nat :| j < i && events[..i][j].op == EndJoinable && events[..i][j].resource == events[i].resource;
      assert ConsumesAgain(events, j, i);
    }
    if j: nat, i: nat :| ConsumesAgain(events, j, i) {
      assert events[..i][j] == events[j];
      assert Breaks(events, i, ConsumedTwice);
    }
  }

  lemma {:induction false} BreaksInRange(events: seq<SyncEvent>, i: nat, r: SyncRule)
    requires Breaks(events, i, r)
    ensures i < |events|
  {}

  lemma {:induction false} ViolatesInRange(events: seq<SyncEvent>, i: nat, r: SyncRule)
    requires Violates(events, i, r)
    ensures i < |events|
  {}
}
