/** The findings of the synchronization analysis, told from the records of the
    order: for every rule, which record shows it and the two names it gives. */
module SyncFindings {
  import opened Events
  import opened Graphs
  import opened SyncEvidence
  import opened SyncPlaces
  import opened SyncReach
  import opened SyncRecords
  import opened SyncSpec
  import opened SyncTheorems

  // ---------- What a record shows ----------

  predicate HeldByAt(order: seq<Node>, k: nat, thread: Name, j: nat) {
    HeldBefore(order, k, j) && j < |order| && Who(order[j]) == thread
  }

  /** The newest lock the thread holds before place k was taken at j. */
  ghost predicate NewestHeld(order: seq<Node>, k: nat, thread: Name, j: nat) {
    HeldByAt(order, k, thread, j) && forall i: nat :: HeldByAt(order, k, thread, i) ==> i <= j
  }

  /** The newest lock of the record's thread, and the record's resource. */
  ghost predicate ShowsNewest(order: seq<Node>, i: nat, from: Name, to: Name) {
    i < |order| && to == What(order[i])
    && exists j: nat :: NewestHeld(order, i, Who(order[i]), j) && from == What(order[j])
  }

  predicate HolderOf(order: seq<Node>, k: nat, lock: Name, j: nat, holder: Name) {
    HeldBefore(order, k, j) && j < |order| && What(order[j]) == lock && Who(order[j]) == holder
  }

  predicate WaiterFor(order: seq<Node>, k: nat, x: Name, j: nat, waiter: Name) {
    && WaitsBefore(order, k, j) && j < |order| && Waiter(order[j]) == waiter
    && (What(order[j]) == x || Target(order[j]) == x)
  }

  /** A holder of the mutex, or a thread that waits for it or gave it along. */
  ghost predicate ShowsBusy(order: seq<Node>, i: nat, from: Name, to: Name) {
    i < |order| && from == What(order[i])
    && ((exists j: nat :: HolderOf(order, i, from, j, to)) || exists j: nat :: WaiterFor(order, i, from, j, to))
  }

  predicate EndedBy(order: seq<Node>, k: nat, x: Name, j: nat, ender: Name) {
    j < k <= |order| && EndsThread(order[j]) && What(order[j]) == x && Who(order[j]) == ender
  }

  ghost predicate ShowsTwice(order: seq<Node>, i: nat, from: Name, to: Name) {
    i < |order| && from == What(order[i]) && exists j: nat :: EndedBy(order, i, from, j, to)
  }

  predicate OtherMutexAt(order: seq<Node>, k: nat, condition: Name, mutex: Name, j: nat) {
    WaitsBefore(order, k, j) && j < |order| && What(order[j]) == condition && Target(order[j]) != mutex
  }

  ghost predicate ShowsMutexes(order: seq<Node>, i: nat, from: Name, to: Name) {
    i < |order| && from == What(order[i]) && to == Whom(order[i])
    && exists j: nat :: OtherMutexAt(order, i, from, to, j)
  }

  /** The lock at b was taken while its thread held the one taken at a. */
  predicate LockArc(order: seq<Node>, a: nat, b: nat) {
    && b < |order| && TakesLock(order[b]) && HeldByAt(order, b, Who(order[b]), a)
    && What(order[a]) != What(order[b])
  }

  /** The lock order before place k. */
  ghost function LockOrder(order: seq<Node>, k: nat): set<(Name, Name)> {
    set a: nat, b: nat | a < |order| && b < |order| && b < k && LockArc(order, a, b) :: (What(order[a]), What(order[b]))
  }

  ghost predicate ShowsOrder(order: seq<Node>, i: nat, from: Name, to: Name) {
    && i < |order| && to == What(order[i]) && from != to && Reaches(LockOrder(order, i), to, from)
    && exists j: nat :: HeldByAt(order, i, Who(order[i]), j) && from == What(order[j])
  }

  // ---------- The end of the order ----------

  /** An unfinished join. */
  predicate OpenJoin(order: seq<Node>, i: nat) {
    WaitsBefore(order, |order|, i) && i < |order| && StartsJoin(order[i])
  }

  ghost function JoinArcs(order: seq<Node>): set<(Name, Name)> {
    set i: nat | i < |order| && OpenJoin(order, i) :: (What(order[i]), Whom(order[i]))
  }

  /** An unfinished join leads to its target, another unfinished wait at p to
      every holder of what it is for. */
  predicate WaitArc(order: seq<Node>, p: nat, q: nat) {
    && p < |order| && q < |order| && WaitsBefore(order, |order|, p)
    && if StartsJoin(order[p]) then q == p else HeldBefore(order, |order|, q) && What(order[q]) == What(order[p])
  }

  function ArcTo(order: seq<Node>, p: nat, q: nat): Name
    requires p < |order| && q < |order|
  {
    if StartsJoin(order[p]) then Whom(order[p]) else Who(order[q])
  }

  ghost function WaitArcs(order: seq<Node>): set<(Name, Name)> {
    set p: nat, q: nat | p < |order| && q < |order| && WaitArc(order, p, q) :: (Waiter(order[p]), ArcTo(order, p, q))
  }

  /** An arc from the thread over which it waits for itself. */
  ghost predicate CycleArc(order: seq<Node>, thread: Name, p: nat, q: nat) {
    && p < |order| && q < |order| && WaitArc(order, p, q) && Waiter(order[p]) == thread
    && Reaches(WaitArcs(order), ArcTo(order, p, q), thread)
  }

  predicate Earlier(a: (nat, nat), b: (nat, nat)) {
    a.0 < b.0 || (a.0 == b.0 && a.1 < b.1)
  }

  ghost predicate FirstCycleArc(order: seq<Node>, thread: Name, p: nat, q: nat) {
    && CycleArc(order, thread, p, q)
    && forall r: nat, s: nat :: CycleArc(order, thread, r, s) ==> !Earlier((r, s), (p, q))
  }

  /** The thread's first cycling arc leads there. */
  ghost predicate FirstArcTo(order: seq<Node>, thread: Name, to: Name) {
    exists p: nat, q: nat ::
      p < |order| && q < |order| && FirstCycleArc(order, thread, p, q) && to == ArcTo(order, p, q)
  }

  ghost predicate ShowsWait(order: seq<Node>, i: nat, from: Name, to: Name) {
    && WaitsBefore(order, |order|, i) && i < |order| && !StartsJoin(order[i]) && from == Who(order[i])
    && FirstArcTo(order, from, to)
  }

  ghost predicate ShowsJoin(order: seq<Node>, i: nat, from: Name, to: Name) {
    OpenJoin(order, i) && from == What(order[i]) && to == Whom(order[i]) && Reaches(JoinArcs(order), to, from)
  }

  /** Record i shows that the rule is broken, with these names. */
  ghost predicate Shows(order: seq<Node>, i: nat, rule: SyncRule, from: Name, to: Name) {
    i < |order|
    && match rule
       case LockOrderCycle => TakesLock(order[i]) && ShowsOrder(order, i, from, to)
       case WaitCycle => ShowsWait(order, i, from, to)
       case JoinCycle => ShowsJoin(order, i, from, to)
       case ReleaseOrder => GivesLock(order[i]) && ShowsNewest(order, i, from, to) && from != to
       case JoinWhileHeld => StartsJoin(order[i]) && ShowsNewest(order, i, from, to)
       case BusyMutexDestroyed => DestroysMutex(order[i]) && ShowsBusy(order, i, from, to)
       case ConsumedTwice => ConsumesThread(order[i]) && ShowsTwice(order, i, from, to)
       case ConditionMutexes => StartsCondition(order[i]) && ShowsMutexes(order, i, from, to)
       case BlockedWhileHeld => Blocks(order[i]) && ShowsNewest(order, i, from, to)
  }

  /** A finding of the order: the first record that shows it. */
  ghost predicate IsFinding(order: seq<Node>, f: SyncFinding) {
    Shows(order, f.at, f.rule, f.from, f.to)
    && forall i: nat :: i < f.at ==> !Shows(order, i, f.rule, f.from, f.to)
  }

  // ---------- Selections from the tables ----------

  lemma {:induction false} HoldersHave(holds: seq<SyncItem>, x: Name, pair: (Name, Name))
    ensures pair in HoldersOf(holds, x)
            <==> exists h :: h in holds && h.resource == x && pair == (x, h.thread)
  {
    if holds != [] {
      var n := |holds| - 1;
      HoldersHave(holds[..n], x, pair);
      assert forall h :: h in holds <==> h in holds[..n] || h == holds[n];
    }
  }

  lemma {:induction false} WaitersHave(waits: seq<SyncItem>, x: Name, pair: (Name, Name))
    ensures pair in WaitersOn(waits, x)
            <==> exists w :: w in waits && (w.resource == x || w.target == x) && pair == (x, w.thread)
  {
    if waits != [] {
      var n := |waits| - 1;
      WaitersHave(waits[..n], x, pair);
      assert forall w :: w in waits <==> w in waits[..n] || w == waits[n];
    }
  }

  lemma {:induction false} MutexesHave(waits: seq<SyncItem>, c: Name, m: Name, pair: (Name, Name))
    ensures pair in OtherMutexWaits(waits, c, m)
            <==> pair == (c, m) && exists w :: w in waits && w.resource == c && w.target != m
  {
    if waits != [] {
      var n := |waits| - 1;
      MutexesHave(waits[..n], c, m, pair);
      assert forall w :: w in waits <==> w in waits[..n] || w == waits[n];
    }
  }

  lemma {:induction false} ClosingHave(g: set<(Name, Name)>, stack: seq<Name>, x: Name, pair: (Name, Name))
    ensures pair in ClosingLocks(g, stack, x)
            <==> pair.1 == x && pair.0 != x && pair.0 in stack && Reaches(g, x, pair.0)
  {
    if stack != [] {
      var n := |stack| - 1;
      ClosingHave(g, stack[..n], x, pair);
      assert pair.0 in stack <==> pair.0 in stack[..n] || pair.0 == stack[n];
    }
  }

  ghost predicate NewestItem(holds: seq<SyncItem>, thread: Name, h: SyncItem) {
    h in holds && h.thread == thread && forall g :: g in holds && g.thread == thread ==> g.at <= h.at
  }

  lemma {:induction false} NewestOfLonger(holds: seq<SyncItem>, thread: Name, h: SyncItem)
    requires holds != [] && Rising(holds) && holds[|holds| - 1].thread != thread
    requires NewestItem(holds[..|holds| - 1], thread, h)
    ensures NewestItem(holds, thread, h)
  {
    LastIsNew(holds);
  }

  lemma {:induction false} LastIsNewest(holds: seq<SyncItem>)
    requires holds != [] && Rising(holds)
    ensures NewestItem(holds, holds[|holds| - 1].thread, holds[|holds| - 1])
  {
    LastIsNew(holds);
  }

  ghost predicate TopIs(holds: seq<SyncItem>, thread: Name, x: Name) {
    exists h :: NewestItem(holds, thread, h) && h.resource == x
  }

  /** The top of a thread's stack is the lock of its newest hold. */
  lemma {:induction false} StackTop(holds: seq<SyncItem>, thread: Name)
    requires Rising(holds)
    ensures var stack := Stack(holds, thread);
            && (stack != [] ==> TopIs(holds, thread, stack[|stack| - 1]))
            && (stack == [] ==> forall h :: h in holds ==> h.thread != thread)
  {
    hide Rising, NewestItem;
    if holds != [] {
      var init, last := holds[..|holds| - 1], holds[|holds| - 1];
      LastIsNew(holds);
      StackTop(init, thread);
      if last.thread == thread {
        LastIsNewest(holds);
      } else if Stack(init, thread) != [] {
        var h :| NewestItem(init, thread, h) && h.resource == Stack(init, thread)[|Stack(init, thread)| - 1];
        NewestOfLonger(holds, thread, h);
      }
    }
  }

  // ---------- The state before a record ----------

  ghost function Before(order: seq<Node>, i: nat): SyncState
    requires i <= |order|
  {
    EventCount(order);
    Run(EventsOf(order)[..i])
  }

  lemma {:induction false} HeldItems(order: seq<Node>, i: nat, h: SyncItem)
    requires i <= |order|
    ensures h in Before(order, i).holds <==> HeldBefore(order, i, h.at) && h.at < |order| && h == HeldOf(order, h.at)
  {
    hide Run, EventsOf, HeldBefore;
    EventCount(order);
    HoldsAre(order, i, h);
  }

  lemma {:induction false} WaitItems(order: seq<Node>, i: nat, w: SyncItem)
    requires i <= |order|
    ensures w in Before(order, i).waits <==> WaitsBefore(order, i, w.at) && w.at < |order| && w == WaitOf(order, w.at)
  {
    hide Run, EventsOf, WaitsBefore;
    EventCount(order);
    WaitsAre(order, i, w);
  }

  lemma {:induction false} StateRises(order: seq<Node>, i: nat)
    requires i <= |order|
    ensures Rising(Before(order, i).holds) && Rising(Before(order, i).waits)
  {
    hide Run, EventsOf, Rising, IsHeldItem, IsWaitItem;
    EventCount(order);
    TablesStayOk(EventsOf(order)[..i]);
  }

  lemma {:induction false} GivesHere(order: seq<Node>, i: nat, rule: SyncRule, from: Name, to: Name)
    requires i < |order|
    ensures Gives(EventsOf(order), i, rule, from, to)
            <==> (from, to) in PairsOf(Before(order, i), EventOf(order[i]), rule)
  {
    hide Run, EventOf, PairsOf;
    EventCount(order);
    PrefixOfEvents(order, i);
  }

  /** The top of the thread's stack, told from the records. */
  lemma {:induction false} NewestIsTop(order: seq<Node>, i: nat, thread: Name, x: Name)
    requires i <= |order|
    ensures var stack := Stack(Before(order, i).holds, thread);
            (stack != [] && stack[|stack| - 1] == x)
            <==> exists j: nat :: NewestHeld(order, i, thread, j) && x == What(order[j])
  {
    hide Before, Stack, HeldBefore, Rising, Who, What;
    var holds := Before(order, i).holds;
    StateRises(order, i);
    StackTop(holds, thread);
    if Stack(holds, thread) != [] {
      var h :| NewestItem(holds, thread, h) && h.resource == Stack(holds, thread)[|Stack(holds, thread)| - 1];
      HeldItems(order, i, h);
      forall j: nat | HeldByAt(order, i, thread, j)
        ensures j <= h.at
      {
        HeldItems(order, i, HeldOf(order, j));
      }
      assert NewestHeld(order, i, thread, h.at);
    }
    if j: nat :| NewestHeld(order, i, thread, j) && x == What(order[j]) {
      HeldItems(order, i, HeldOf(order, j));
    }
  }

  lemma {:induction false} InStackIs(order: seq<Node>, i: nat, thread: Name, x: Name)
    requires i <= |order|
    ensures x in Stack(Before(order, i).holds, thread)
            <==> exists j: nat :: HeldByAt(order, i, thread, j) && x == What(order[j])
  {
    hide Before, Stack, HeldBefore, Who, What;
    var holds := Before(order, i).holds;
    InStack(holds, thread, x);
    if h :| h in holds && Matches(h, thread, x) {
      HeldItems(order, i, h);
    }
    if j: nat :| HeldByAt(order, i, thread, j) && x == What(order[j]) {
      HeldItems(order, i, HeldOf(order, j));
      assert Matches(HeldOf(order, j), thread, x);
    }
  }

  // ---------- The rules of single records ----------

  lemma {:induction false} TopPairs(order: seq<Node>, i: nat, from: Name, to: Name)
    requires i < |order|
    ensures var stack := Stack(Before(order, i).holds, Who(order[i]));
            && ((from, to) in TopOf(stack, What(order[i])) <==> ShowsNewest(order, i, from, to))
            && ((from, to) in TopMismatch(stack, What(order[i])) <==> ShowsNewest(order, i, from, to) && from != to)
  {
    hide Before, Stack, NewestHeld, Who, What;
    NewestIsTop(order, i, Who(order[i]), from);
  }

  lemma {:induction false} BusyPairs(order: seq<Node>, i: nat, from: Name, to: Name)
    requires i < |order|
    ensures (from, to) in HoldersOf(Before(order, i).holds, What(order[i])) + WaitersOn(Before(order, i).waits,
                                                                                       What(order[i]))
            <==> ShowsBusy(order, i, from, to)
  {
    hide Before, HoldersOf, WaitersOn, HeldBefore, WaitsBefore, Who, What, Waiter, Target;
    var s, x := Before(order, i), What(order[i]);
    HoldersHave(s.holds, x, (from, to));
    WaitersHave(s.waits, x, (from, to));
    if h :| h in s.holds && h.resource == x && (from, to) == (x, h.thread) {
      HeldItems(order, i, h);
      assert HolderOf(order, i, from, h.at, to);
    }
    if w :| w in s.waits && (w.resource == x || w.target == x) && (from, to) == (x, w.thread) {
      WaitItems(order, i, w);
      assert WaiterFor(order, i, from, w.at, to);
    }
    if ShowsBusy(order, i, from, to) {
      if j: nat :| HolderOf(order, i, from, j, to) {
        HeldItems(order, i, HeldOf(order, j));
      } else {
        var j: nat :| WaiterFor(order, i, from, j, to);
        WaitItems(order, i, WaitOf(order, j));
      }
    }
  }

  lemma {:induction false} MutexPairs(order: seq<Node>, i: nat, from: Name, to: Name)
    requires i < |order|
    ensures (from, to) in OtherMutexWaits(Before(order, i).waits, What(order[i]), Whom(order[i]))
            <==> ShowsMutexes(order, i, from, to)
  {
    hide Before, OtherMutexWaits, WaitsBefore, Who, What, Whom, Waiter, Target;
    var waits, c, m := Before(order, i).waits, What(order[i]), Whom(order[i]);
    MutexesHave(waits, c, m, (from, to));
    if w :| w in waits && w.resource == c && w.target != m {
      WaitItems(order, i, w);
      assert OtherMutexAt(order, i, c, m, w.at);
    }
    if j: nat :| OtherMutexAt(order, i, c, m, j) {
      WaitItems(order, i, WaitOf(order, j));
    }
  }

  lemma {:induction false} TerminatedStep(s: SyncState, e: SyncEvent, at: nat)
    ensures Step(s, e, at).terminated
            == s.terminated + (if e.op == EndJoinable then [SyncItem(false, e.thread, e.resource, NoName, at)] else [])
  {
    hide ReportEach, RemoveLastMatch, HoldersOf, WaitersOn, ClosingLocks, OtherMutexWaits, TopOf, TopMismatch, Stack;
  }

  lemma {:induction false} EndedItems(order: seq<Node>, i: nat, h: SyncItem)
    requires i <= |order|
    ensures h in Before(order, i).terminated
            <==> h.at < i && EndsThread(order[h.at]) && h == HeldOf(order, h.at)
  {
    hide EventsOf, EventOf, Step, Who, What, EndsThread;
    EventCount(order);
    if i > 0 {
      EndedItems(order, i - 1, h);
      PrefixOfEvents(order, i - 1);
      TerminatedStep(Before(order, i - 1), EventOf(order[i - 1]), i - 1);
      OtherOperations(order[i - 1]);
      NamesOfEvent(order[i - 1]);
    }
  }

  lemma {:induction false} TwicePairs(order: seq<Node>, i: nat, from: Name, to: Name)
    requires i < |order|
    ensures (from, to) in HoldersOf(Before(order, i).terminated, What(order[i])) <==> ShowsTwice(order, i, from, to)
  {
    hide Before, HoldersOf, Who, What, EndsThread;
    var ended, x := Before(order, i).terminated, What(order[i]);
    HoldersHave(ended, x, (from, to));
    if h :| h in ended && h.resource == x && (from, to) == (x, h.thread) {
      EndedItems(order, i, h);
      assert EndedBy(order, i, from, h.at, to);
    }
    if from == x {
      if j: nat :| EndedBy(order, i, from, j, to) {
        EndedItems(order, i, HeldOf(order, j));
      }
    }
  }

  // ---------- The lock order ----------

  lemma {:induction false} LockEdgesAre(order: seq<Node>, i: nat)
    requires i <= |order|
    ensures EdgeSet(Before(order, i).lockEdges) == LockOrder(order, i)
  {
    hide EventsOf, EventOf, Step, Who, What, TakesLock, EdgeSet, LockArc, Run, Before;
    if i == 0 {
      NoLockEdges(order);
    } else {
      var s, n := Before(order, i - 1), order[i - 1];
      LockEdgesAre(order, i - 1);
      BeforeNext(order, i - 1);
      forall a: Name, b: Name
        ensures (a, b) in EdgeSet(Before(order, i).lockEdges) <==> (a, b) in LockOrder(order, i)
      {
        StepLockEdges(s, EventOf(n), i - 1, a, b);
        LockOrderNext(order, i - 1, a, b);
      }
      SamePairs(EdgeSet(Before(order, i).lockEdges), LockOrder(order, i));
    }
  }

  lemma {:induction false} SamePairs(g: set<(Name, Name)>, h: set<(Name, Name)>)
    requires forall a, b :: (a, b) in g <==> (a, b) in h
    ensures g == h
  {
    forall p: (Name, Name)
      ensures p in g <==> p in h
    {
      assert p == (p.0, p.1);
    }
  }

  lemma {:induction false} BeforeNext(order: seq<Node>, i: nat)
    requires i < |order|
    ensures Before(order, i + 1) == Step(Before(order, i), EventOf(order[i]), i)
  {
    hide EventOf, Step, EventsOf;
    EventCount(order);
    PrefixOfEvents(order, i);
  }

  lemma {:induction false} NoLockEdges(order: seq<Node>)
    ensures EdgeSet(Before(order, 0).lockEdges) == {} == LockOrder(order, 0)
  {
    hide EventsOf;
    EventCount(order);
    assert EventsOf(order)[..0] == [];
  }

  lemma {:induction false} LockOrderNext(order: seq<Node>, i: nat, a: Name, b: Name)
    requires i < |order|
    ensures (a, b) in LockOrder(order, i + 1)
            <==> (a, b) in LockOrder(order, i)
                 || (EventOf(order[i]).op == AcquireLock && b == EventOf(order[i]).resource && a != b
                     && a in Stack(Before(order, i).holds, EventOf(order[i]).thread))
  {
    hide EventOf, Stack, Before, HeldBefore, Who, What, TakesLock;
    LockOperations(order[i]);
    NamesOfEvent(order[i]);
    InStackIs(order, i, Who(order[i]), a);
    LockOrderLast(order, i, a, b);
  }

  lemma {:induction false} LockOrderLast(order: seq<Node>, i: nat, a: Name, b: Name)
    requires i < |order|
    ensures (a, b) in LockOrder(order, i + 1)
            <==> (a, b) in LockOrder(order, i)
                 || (TakesLock(order[i]) && b == What(order[i]) && a != b
                     && exists j: nat :: HeldByAt(order, i, Who(order[i]), j) && a == What(order[j]))
  {
    hide HeldBefore, Who, What, TakesLock;
    if (a, b) in LockOrder(order, i + 1) {
      var x: nat, y: nat :| x < |order| && y < |order| && y < i + 1 && LockArc(order, x, y)
                            && (What(order[x]), What(order[y])) == (a, b);
      assert y < i ==> (a, b) in LockOrder(order, i);
    }
    if TakesLock(order[i]) && b == What(order[i]) && a != b {
      if j: nat :| HeldByAt(order, i, Who(order[i]), j) && a == What(order[j]) {
        assert LockArc(order, j, i);
      }
    }
  }

  lemma {:induction false} OrderPairs(order: seq<Node>, i: nat, from: Name, to: Name)
    requires i < |order|
    ensures var s := Before(order, i);
            (from, to) in ClosingLocks(EdgeSet(s.lockEdges), Stack(s.holds, Who(order[i])), What(order[i]))
            <==> ShowsOrder(order, i, from, to)
  {
    hide Before, ClosingLocks, EdgeSet, Stack, LockOrder, Reaches, HeldByAt, Who, What;
    var s := Before(order, i);
    LockEdgesAre(order, i);
    ClosingHave(EdgeSet(s.lockEdges), Stack(s.holds, Who(order[i])), What(order[i]), (from, to));
    InStackIs(order, i, Who(order[i]), from);
  }

  /** During the run a record gives names exactly when it shows them. */
  lemma {:induction false} GivesIsShows(order: seq<Node>, i: nat, rule: SyncRule, from: Name, to: Name)
    requires i < |order| && !OfEnd(rule)
    ensures Gives(EventsOf(order), i, rule, from, to) <==> Shows(order, i, rule, from, to)
  {
    hide EventOf, EventsOf, Gives, Before, TakesLock, GivesLock, StartsJoin, StartsCondition, DestroysMutex,
         ConsumesThread, Blocks, EndsThread, Who, What, Whom, ShowsOrder, ShowsNewest, ShowsBusy, ShowsTwice,
         ShowsMutexes,
         Stack, TopOf, TopMismatch, HoldersOf, WaitersOn, ClosingLocks, OtherMutexWaits, EdgeSet;
    GivesHere(order, i, rule, from, to);
    NamesOfEvent(order[i]);
    LockOperations(order[i]);
    WaitOperations(order[i]);
    OtherOperations(order[i]);
    match rule {
      case LockOrderCycle => OrderPairs(order, i, from, to);
      case BusyMutexDestroyed => BusyPairs(order, i, from, to);
      case ConsumedTwice => TwicePairs(order, i, from, to);
      case ConditionMutexes => MutexPairs(order, i, from, to);
      case _ => TopPairs(order, i, from, to);
    }
  }

  // ---------- Joins at the end ----------

  ghost function AtEnd(order: seq<Node>): SyncState {
    Before(order, |order|)
  }

  lemma {:induction false} WholeRun(order: seq<Node>)
    ensures Run(EventsOf(order)) == AtEnd(order)
  {
    hide EventsOf, Run;
    EventCount(order);
    assert EventsOf(order)[..|order|] == EventsOf(order);
  }

  lemma {:induction false} JoinArcsAre(order: seq<Node>)
    ensures EdgeSet(JoinEdges(AtEnd(order).waits)) == JoinArcs(order)
  {
    hide Before, EdgeSet, JoinEdges, WaitsBefore, Waiter, What, Whom, Who, Target, StartsJoin;
    var waits := AtEnd(order).waits;
    forall a: Name, b: Name
      ensures (a, b) in EdgeSet(JoinEdges(waits)) <==> (a, b) in JoinArcs(order)
    {
      JoinEdgesSet(waits, a, b);
      JoinArcIs(order, a, b);
    }
    SamePairs(EdgeSet(JoinEdges(waits)), JoinArcs(order));
  }

  lemma {:induction false} JoinNames(n: Node)
    requires StartsJoin(n)
    ensures Waiter(n) == What(n) && Target(n) == Whom(n)
  {}

  lemma {:induction false} JoinArcIs(order: seq<Node>, a: Name, b: Name)
    ensures Joins(AtEnd(order).waits, a, b) <==> (a, b) in JoinArcs(order)
  {
    hide Before, WaitsBefore, Waiter, What, Whom, Who, Target, StartsJoin;
    var n, waits := |order|, AtEnd(order).waits;
    if w :| w in waits && w.join && w.thread == a && w.target == b {
      WaitItems(order, n, w);
      JoinNames(order[w.at]);
      assert OpenJoin(order, w.at);
    }
    if (a, b) in JoinArcs(order) {
      var i: nat :| i < |order| && OpenJoin(order, i) && (What(order[i]), Whom(order[i])) == (a, b);
      WaitItems(order, n, WaitOf(order, i));
      JoinNames(order[i]);
    }
  }

  lemma {:induction false} JoinPairsAre(order: seq<Node>, i: nat, from: Name, to: Name)
    requires i < |order| && WaitsBefore(order, |order|, i)
    ensures (from, to) in PairsAtEnd(AtEnd(order), WaitOf(order, i), JoinCycle) <==> ShowsJoin(order, i, from, to)
  {
    hide Before, EdgeSet, JoinEdges, WaitsBefore, Waiter, What, Whom, Who, Target, StartsJoin, Reaches, JoinArcs;
    JoinArcsAre(order);
    if StartsJoin(order[i]) {
      JoinNames(order[i]);
    }
  }

  // ---------- Waits at the end ----------

  /** The places of the wait and the hold that give each wait edge. */
  function HolderPlaces(holds: seq<SyncItem>, wait: SyncItem): seq<(nat, nat)> {
    if holds == [] then []
    else
      var last := holds[|holds| - 1];
      HolderPlaces(holds[..|holds| - 1], wait) + (if last.resource == wait.resource then [(wait.at, last.at)] else [])
  }

  function EdgePlaces(waits: seq<SyncItem>, holds: seq<SyncItem>): seq<(nat, nat)> {
    if waits == [] then []
    else
      var last := waits[|waits| - 1];
      EdgePlaces(waits[..|waits| - 1], holds)
      + (if last.join then [(last.at, last.at)] else HolderPlaces(holds, last))
  }

  ghost predicate Ordered(places: seq<(nat, nat)>) {
    forall i, j :: 0 <= i < j < |places| ==> Earlier(places[i], places[j])
  }

  lemma {:induction false} OrderedConcat(a: seq<(nat, nat)>, b: seq<(nat, nat)>)
    requires Ordered(a) && Ordered(b) && forall x, y :: x in a && y in b ==> Earlier(x, y)
    ensures Ordered(a + b)
  {
    var all := a + b;
    forall i, j | 0 <= i < j < |all|
      ensures Earlier(all[i], all[j])
    {
      if i < |a| {
        assert a[i] in a;
      }
      if j >= |a| {
        assert b[j - |a|] in b;
      }
    }
  }

  lemma {:induction false} HolderPlacesRise(holds: seq<SyncItem>, wait: SyncItem)
    requires Rising(holds)
    ensures Ordered(HolderPlaces(holds, wait))
    ensures forall x :: x in HolderPlaces(holds, wait) ==> x.0 == wait.at
    ensures forall x :: x in HolderPlaces(holds, wait) ==> exists h :: h in holds && x.1 == h.at
  {
    hide Rising;
    if holds != [] {
      var init, last := holds[..|holds| - 1], holds[|holds| - 1];
      LastIsNew(holds);
      HolderPlacesRise(init, wait);
      if last.resource == wait.resource {
        OrderedConcat(HolderPlaces(init, wait), [(wait.at, last.at)]);
      }
    }
  }

  lemma {:induction false} EdgePlacesRise(waits: seq<SyncItem>, holds: seq<SyncItem>)
    requires Rising(waits) && Rising(holds)
    ensures Ordered(EdgePlaces(waits, holds))
    ensures forall x :: x in EdgePlaces(waits, holds) ==> exists w :: w in waits && x.0 == w.at
  {
    hide Rising, Ordered, HolderPlaces;
    if waits == [] {
      assert Ordered([]) by { NothingToOrder(); }
    } else {
      var init, last := waits[..|waits| - 1], waits[|waits| - 1];
      LastIsNew(waits);
      EdgePlacesRise(init, holds);
      HolderPlacesRise(holds, last);
      var added := if last.join then [(last.at, last.at)] else HolderPlaces(holds, last);
      assert Ordered(added) by { OneIsOrdered((last.at, last.at)); }
      OrderedConcat(EdgePlaces(init, holds), added);
    }
  }

  lemma {:induction false} NothingToOrder()
    ensures Ordered([])
  {}

  lemma {:induction false} OneIsOrdered(p: (nat, nat))
    ensures Ordered([p])
  {}

  /** A wait and, unless it is a join, a hold of what it is for. */
  ghost predicate GivesEdge(waits: seq<SyncItem>, holds: seq<SyncItem>, place: (nat, nat), e: SyncEdge<Name>) {
    exists w :: w in waits && place.0 == w.at
                && if w.join then place.1 == w.at && e == SyncEdge(w.thread, w.target) else HeldEdge(holds, w, place, e)
  }

  ghost predicate HeldEdge(holds: seq<SyncItem>, w: SyncItem, place: (nat, nat), e: SyncEdge<Name>) {
    exists h :: h in holds && h.resource == w.resource && place == (w.at, h.at) && e == SyncEdge(w.thread, h.thread)
  }

  ghost predicate PlacedEdge(edges: seq<SyncEdge<Name>>, places: seq<(nat, nat)>, place: (nat, nat),
                             e: SyncEdge<Name>) {
    exists i: nat :: i < |edges| && i < |places| && edges[i] == e && places[i] == place
  }

  lemma {:induction false} PlacedConcat(edges: seq<SyncEdge<Name>>, places: seq<(nat, nat)>,
                                        more: seq<SyncEdge<Name>>, others: seq<(nat, nat)>, place: (nat, nat),
                                        e: SyncEdge<Name>)
    requires |edges| == |places| && |more| == |others|
    ensures PlacedEdge(edges + more, places + others, place, e)
            <==> PlacedEdge(edges, places, place, e) || PlacedEdge(more, others, place, e)
  {
    if i: nat :| i < |edges| && i < |places| && edges[i] == e && places[i] == place {
      assert (edges + more)[i] == e && (places + others)[i] == place;
    }
    if i: nat :| i < |more| && i < |others| && more[i] == e && others[i] == place {
      assert (edges + more)[|edges| + i] == e && (places + others)[|places| + i] == place;
    }
    if PlacedEdge(edges + more, places + others, place, e) {
      var i: nat :| i < |edges + more| && (edges + more)[i] == e && (places + others)[i] == place;
      if i < |edges| {
        assert edges[i] == e && places[i] == place;
      } else {
        assert more[i - |edges|] == e && others[i - |edges|] == place;
      }
    }
  }

  lemma {:induction false} OnePlaced(x: SyncEdge<Name>, p: (nat, nat), place: (nat, nat), e: SyncEdge<Name>)
    ensures PlacedEdge([x], [p], place, e) <==> x == e && p == place
    ensures !PlacedEdge([], [], place, e)
  {
    if x == e && p == place {
      assert [x][0] == e && [p][0] == place;
    }
  }

  lemma {:induction false} HolderEdgesPlaced(holds: seq<SyncItem>, w: SyncItem, place: (nat, nat), e: SyncEdge<Name>)
    ensures |HolderEdges(holds, w)| == |HolderPlaces(holds, w)|
    ensures PlacedEdge(HolderEdges(holds, w), HolderPlaces(holds, w), place, e) <==> HeldEdge(holds, w, place, e)
  {
    hide PlacedEdge;
    if holds == [] {
      OnePlaced(e, place, place, e);
    } else {
      var init, last := holds[..|holds| - 1], holds[|holds| - 1];
      HolderEdgesPlaced(init, w, place, e);
      assert forall h :: h in holds <==> h in init || h == last;
      var x, p := SyncEdge(w.thread, last.thread), (w.at, last.at);
      OnePlaced(x, p, place, e);
      PlacedConcat(HolderEdges(init, w), HolderPlaces(init, w), [x], [p], place, e);
      if last.resource != w.resource {
        assert HolderEdges(init, w) + [] == HolderEdges(init, w);
        assert HolderPlaces(init, w) + [] == HolderPlaces(init, w);
      }
    }
  }

  lemma {:induction false} WaitEdgesPlaced(waits: seq<SyncItem>, holds: seq<SyncItem>, place: (nat, nat),
                                           e: SyncEdge<Name>)
    ensures |WaitEdges(waits, holds)| == |EdgePlaces(waits, holds)|
    ensures PlacedEdge(WaitEdges(waits, holds), EdgePlaces(waits, holds), place, e)
            <==> GivesEdge(waits, holds, place, e)
  {
    hide PlacedEdge, HeldEdge, HolderPlaces;
    if waits == [] {
      OnePlaced(e, place, place, e);
    } else {
      var init, last := waits[..|waits| - 1], waits[|waits| - 1];
      WaitEdgesPlaced(init, holds, place, e);
      HolderEdgesPlaced(holds, last, place, e);
      assert forall w :: w in waits <==> w in init || w == last;
      OnePlaced(SyncEdge(last.thread, last.target), (last.at, last.at), place, e);
      PlacedConcat(WaitEdges(init, holds), EdgePlaces(init, holds),
                   if last.join then [SyncEdge(last.thread, last.target)] else HolderEdges(holds, last),
                   if last.join then [(last.at, last.at)] else HolderPlaces(holds, last), place, e);
      EdgeOfLast(init, last, holds, place, e);
    }
  }

  lemma {:induction false} EdgeOfLast(init: seq<SyncItem>, last: SyncItem, holds: seq<SyncItem>, place: (nat, nat),
                                      e: SyncEdge<Name>)
    ensures GivesEdge(init + [last], holds, place, e)
            <==> GivesEdge(init, holds, place, e)
                 || (place.0 == last.at
                     && if last.join then place.1 == last.at && e == SyncEdge(last.thread, last.target)
                        else HeldEdge(holds, last, place, e))
    ensures HeldEdge(holds, last, place, e) ==> place.0 == last.at
  {
    hide HeldEdge;
    assert forall w :: w in init + [last] <==> w in init || w == last;
    HeldAtWait(holds, last, place, e);
  }

  lemma {:induction false} HeldAtWait(holds: seq<SyncItem>, w: SyncItem, place: (nat, nat), e: SyncEdge<Name>)
    ensures HeldEdge(holds, w, place, e) ==> place.0 == w.at
  {}

  // ---------- The first cycling edge ----------

  ghost predicate Cycles(edges: seq<SyncEdge<Name>>, thread: Name, i: nat) {
    i < |edges| && edges[i].from == thread && Reaches(EdgeSet(edges), edges[i].to, thread)
  }

  lemma {:induction false} FirstCycling(edges: seq<SyncEdge<Name>>, k: nat, thread: Name)
    requires k <= |edges|
    ensures FirstCyclingEdge(edges, k, thread) == [] ==> forall i: nat :: k <= i ==> !Cycles(edges, thread, i)
    ensures forall i: nat :: k <= i && Cycles(edges, thread, i)
                             && (forall j: nat :: k <= j < i ==> !Cycles(edges, thread, j)) ==>
              FirstCyclingEdge(edges, k, thread) == [(thread, edges[i].to)]
    decreases |edges| - k
  {
    hide Reaches, EdgeSet;
    if k < |edges| && !Cycles(edges, thread, k) {
      FirstCycling(edges, k + 1, thread);
      assert forall i: nat :: k <= i && Cycles(edges, thread, i) ==> k + 1 <= i;
    }
  }

  lemma {:induction false} FirstOf(edges: seq<SyncEdge<Name>>, k: nat, thread: Name, i: nat) returns (first: nat)
    requires k <= i && Cycles(edges, thread, i)
    ensures k <= first && Cycles(edges, thread, first)
    ensures forall j: nat :: k <= j < first ==> !Cycles(edges, thread, j)
    decreases i - k
  {
    hide Cycles;
    if Cycles(edges, thread, k) {
      first := k;
    } else {
      first := FirstOf(edges, k + 1, thread, i);
    }
  }

  /** The pair of names: over the first edge by place that cycles. */
  lemma {:induction false} FirstCyclingIs(edges: seq<SyncEdge<Name>>, thread: Name, from: Name, to: Name)
    ensures (from, to) in FirstCyclingEdge(edges, 0, thread)
            <==> from == thread && FirstEdgeTo(edges, thread, to)
  {
    hide Cycles;
    FirstCycling(edges, 0, thread);
    if FirstCyclingEdge(edges, 0, thread) != [] {
      SomeCycles(edges, 0, thread);
      var i: nat :| Cycles(edges, thread, i);
      var first := FirstOf(edges, 0, thread, i);
      CyclesInRange(edges, thread, first);
      assert IsFirst(edges, thread, first);
    }
  }

  ghost predicate IsFirst(edges: seq<SyncEdge<Name>>, thread: Name, i: nat) {
    i < |edges| && Cycles(edges, thread, i) && forall j: nat :: j < i ==> !Cycles(edges, thread, j)
  }

  ghost predicate FirstEdgeTo(edges: seq<SyncEdge<Name>>, thread: Name, to: Name) {
    exists i: nat :: IsFirst(edges, thread, i) && i < |edges| && edges[i].to == to
  }

  lemma {:induction false} CyclesInRange(edges: seq<SyncEdge<Name>>, thread: Name, i: nat)
    requires Cycles(edges, thread, i)
    ensures i < |edges|
  {}

  lemma {:induction false} SomeCycles(edges: seq<SyncEdge<Name>>, k: nat, thread: Name)
    requires k <= |edges| && FirstCyclingEdge(edges, k, thread) != []
    ensures exists i: nat :: Cycles(edges, thread, i)
    decreases |edges| - k
  {
    if k < |edges| && !Cycles(edges, thread, k) {
      SomeCycles(edges, k + 1, thread);
    }
  }

  // ---------- The wait arcs of the records ----------

  lemma {:induction false} NoJoinNames(n: Node)
    requires StartsWait(n) && !StartsJoin(n)
    ensures Waiter(n) == Who(n)
  {}

  /** The tables give an edge at a place exactly when the records have the arc. */
  lemma {:induction false} EdgeIsArc(order: seq<Node>, p: nat, q: nat, e: SyncEdge<Name>)
    ensures GivesEdge(AtEnd(order).waits, AtEnd(order).holds, (p, q), e)
            <==> p < |order| && q < |order| && WaitArc(order, p, q)
                 && e == SyncEdge(Waiter(order[p]), ArcTo(order, p, q))
  {
    hide Before, WaitsBefore, HeldBefore, What, Whom, Who, StartsJoin, Waiter, Target;
    var n, s := |order|, AtEnd(order);
    if w :| w in s.waits && p == w.at
            && if w.join then q == w.at && e == SyncEdge(w.thread, w.target) else HeldEdge(s.holds, w, (p, q), e) {
      WaitItems(order, n, w);
      if w.join {
        JoinNames(order[p]);
      } else {
        var h :| h in s.holds && h.resource == w.resource && (p, q) == (w.at, h.at)
                 && e == SyncEdge(w.thread, h.thread);
        HeldItems(order, n, h);
      }
    }
    if p < n && q < n && WaitArc(order, p, q) && e == SyncEdge(Waiter(order[p]), ArcTo(order, p, q)) {
      var w := WaitOf(order, p);
      WaitItems(order, n, w);
      if StartsJoin(order[p]) {
        JoinNames(order[p]);
      } else {
        HeldItems(order, n, HeldOf(order, q));
        assert HeldEdge(s.holds, w, (p, q), e);
      }
    }
  }

  lemma {:induction false} WaitArcsAre(order: seq<Node>)
    ensures EdgeSet(WaitEdges(AtEnd(order).waits, AtEnd(order).holds)) == WaitArcs(order)
  {
    hide Before, EdgeSet, WaitEdges, WaitArc, Waiter, ArcTo, GivesEdge, PlacedEdge, EdgePlaces;
    var waits, holds := AtEnd(order).waits, AtEnd(order).holds;
    forall a: Name, b: Name
      ensures (a, b) in EdgeSet(WaitEdges(waits, holds)) <==> (a, b) in WaitArcs(order)
    {
      ArcInTables(order, a, b);
    }
    SamePairs(EdgeSet(WaitEdges(waits, holds)), WaitArcs(order));
  }

  lemma {:induction false} ArcInTables(order: seq<Node>, a: Name, b: Name)
    ensures (a, b) in EdgeSet(WaitEdges(AtEnd(order).waits, AtEnd(order).holds)) <==> (a, b) in WaitArcs(order)
  {
    hide Before, WaitEdges, WaitArc, Waiter, ArcTo, GivesEdge, EdgePlaces;
    var waits, holds := AtEnd(order).waits, AtEnd(order).holds;
    var edges, places, e := WaitEdges(waits, holds), EdgePlaces(waits, holds), SyncEdge(a, b);
    WaitEdgesPlaced(waits, holds, (0, 0), e);
    if (a, b) in EdgeSet(edges) {
      var x :| x in edges && (x.from, x.to) == (a, b);
      var i :| 0 <= i < |edges| && edges[i] == x;
      var p, q := places[i].0, places[i].1;
      assert PlacedEdge(edges, places, (p, q), e);
      WaitEdgesPlaced(waits, holds, (p, q), e);
      EdgeIsArc(order, p, q, e);
    }
    if (a, b) in WaitArcs(order) {
      var p: nat, q: nat :| p < |order| && q < |order| && WaitArc(order, p, q)
                            && (Waiter(order[p]), ArcTo(order, p, q)) == (a, b);
      EdgeIsArc(order, p, q, e);
      WaitEdgesPlaced(waits, holds, (p, q), e);
      var i: nat :| i < |edges| && i < |places| && edges[i] == e && places[i] == (p, q);
      assert edges[i] in edges;
    }
  }

  /** The edge at a place of the table. */
  lemma {:induction false} ArcAtIndex(order: seq<Node>, i: nat)
    requires i < |WaitEdges(AtEnd(order).waits, AtEnd(order).holds)|
    ensures var edges, places := WaitEdges(AtEnd(order).waits, AtEnd(order).holds),
                                 EdgePlaces(AtEnd(order).waits, AtEnd(order).holds);
            i < |places|
            && var p, q := places[i].0, places[i].1;
               p < |order| && q < |order| && WaitArc(order, p, q)
               && edges[i] == SyncEdge(Waiter(order[p]), ArcTo(order, p, q))
  {
    hide Before, WaitEdges, WaitArc, Waiter, ArcTo, GivesEdge, EdgePlaces;
    var waits, holds := AtEnd(order).waits, AtEnd(order).holds;
    var edges, places := WaitEdges(waits, holds), EdgePlaces(waits, holds);
    WaitEdgesPlaced(waits, holds, (0, 0), edges[i]);
    var p, q := places[i].0, places[i].1;
    assert places[i] == (p, q);
    assert PlacedEdge(edges, places, (p, q), edges[i]);
    WaitEdgesPlaced(waits, holds, (p, q), edges[i]);
    EdgeIsArc(order, p, q, edges[i]);
  }

  lemma {:induction false} IndexOfArc(order: seq<Node>, p: nat, q: nat) returns (i: nat)
    requires p < |order| && q < |order| && WaitArc(order, p, q)
    ensures var edges, places := WaitEdges(AtEnd(order).waits, AtEnd(order).holds),
                                 EdgePlaces(AtEnd(order).waits, AtEnd(order).holds);
            i < |edges| && i < |places| && places[i] == (p, q)
            && edges[i] == SyncEdge(Waiter(order[p]), ArcTo(order, p, q))
  {
    hide Before, WaitEdges, WaitArc, Waiter, ArcTo, GivesEdge, EdgePlaces;
    var waits, holds := AtEnd(order).waits, AtEnd(order).holds;
    var edges, places := WaitEdges(waits, holds), EdgePlaces(waits, holds);
    var e := SyncEdge(Waiter(order[p]), ArcTo(order, p, q));
    EdgeIsArc(order, p, q, e);
    WaitEdgesPlaced(waits, holds, (p, q), e);
    i :| 0 <= i < |edges| && i < |places| && edges[i] == e && places[i] == (p, q);
  }

  lemma {:induction false} CyclesIsArc(order: seq<Node>, thread: Name, i: nat, p: nat, q: nat)
    requires var edges := WaitEdges(AtEnd(order).waits, AtEnd(order).holds);
             i < |edges| && p < |order| && q < |order| && WaitArc(order, p, q)
             && edges[i] == SyncEdge(Waiter(order[p]), ArcTo(order, p, q))
    ensures Cycles(WaitEdges(AtEnd(order).waits, AtEnd(order).holds), thread, i) <==> CycleArc(order, thread, p, q)
  {
    hide Before, WaitEdges, WaitArc, Waiter, ArcTo, EdgeSet, Reaches, WaitArcs;
    WaitArcsAre(order);
  }

  lemma {:induction false} TablesRise(order: seq<Node>)
    ensures Ordered(EdgePlaces(AtEnd(order).waits, AtEnd(order).holds))
  {
    hide Before, Rising, Ordered, EdgePlaces;
    StateRises(order, |order|);
    EdgePlacesRise(AtEnd(order).waits, AtEnd(order).holds);
  }

  lemma {:induction false} InOrder(places: seq<(nat, nat)>, i: nat, j: nat)
    requires Ordered(places) && i < |places| && j < |places|
    ensures Earlier(places[i], places[j]) <==> i < j
  {
    if j < i {
      assert Earlier(places[j], places[i]);
    }
  }

  /** The first cycling edge of the table is the first cycling arc. */
  lemma {:induction false} FirstIsFirstArc(order: seq<Node>, thread: Name, to: Name)
    ensures FirstEdgeTo(WaitEdges(AtEnd(order).waits, AtEnd(order).holds), thread, to)
            <==> FirstArcTo(order, thread, to)
  {
    hide Before, WaitEdges, WaitArc, Waiter, ArcTo, Cycles, CycleArc, EdgePlaces, Ordered, Earlier;
    var waits, holds := AtEnd(order).waits, AtEnd(order).holds;
    var edges, places := WaitEdges(waits, holds), EdgePlaces(waits, holds);
    TablesRise(order);
    if i: nat :| IsFirst(edges, thread, i) && i < |edges| && edges[i].to == to {
      ArcAtIndex(order, i);
      var p, q := places[i].0, places[i].1;
      CyclesIsArc(order, thread, i, p, q);
      forall r: nat, s: nat | CycleArc(order, thread, r, s)
        ensures !Earlier((r, s), (p, q))
      {
        CycleArcInRange(order, thread, r, s);
        var j := IndexOfArc(order, r, s);
        CyclesIsArc(order, thread, j, r, s);
        InOrder(places, j, i);
        assert places[i] == (p, q);
      }
      assert FirstCycleArc(order, thread, p, q);
    }
    if p: nat, q: nat :| p < |order| && q < |order| && FirstCycleArc(order, thread, p, q) && to == ArcTo(order, p, q) {
      CycleArcInRange(order, thread, p, q);
      var i := IndexOfArc(order, p, q);
      CyclesIsArc(order, thread, i, p, q);
      forall j: nat | j < i
        ensures !Cycles(edges, thread, j)
      {
        ArcAtIndex(order, j);
        var r, s := places[j].0, places[j].1;
        CyclesIsArc(order, thread, j, r, s);
        InOrder(places, j, i);
        assert places[j] == (r, s);
      }
      assert IsFirst(edges, thread, i);
    }
  }

  lemma {:induction false} CycleArcInRange(order: seq<Node>, thread: Name, p: nat, q: nat)
    requires CycleArc(order, thread, p, q)
    ensures p < |order| && q < |order| && WaitArc(order, p, q)
  {}

  lemma {:induction false} WaitPairsAre(order: seq<Node>, i: nat, from: Name, to: Name)
    requires i < |order| && WaitsBefore(order, |order|, i)
    ensures (from, to) in PairsAtEnd(AtEnd(order), WaitOf(order, i), WaitCycle) <==> ShowsWait(order, i, from, to)
  {
    hide Before, WaitEdges, Waiter, What, Who, Target, StartsJoin, StartsCondition, StartsLockWait, FirstArcTo,
         FirstEdgeTo, FirstCyclingEdge;
    if !StartsJoin(order[i]) {
      NoJoinNames(order[i]);
      FirstCyclingIs(WaitEdges(AtEnd(order).waits, AtEnd(order).holds), Who(order[i]), from, to);
      FirstIsFirstArc(order, Who(order[i]), to);
    }
  }

  /** At the end an unfinished wait gives names exactly when it shows them. */
  lemma {:induction false} EndIsShows(order: seq<Node>, i: nat, rule: SyncRule, from: Name, to: Name)
    requires OfEnd(rule)
    ensures GivesAtEnd(EventsOf(order), i, rule, from, to) <==> Shows(order, i, rule, from, to)
  {
    hide EventsOf, EventOf, Run, Before, PairsAtEnd, WaitItem, WaitOf, Waiting, WaitsAt, StartsWait, ShowsWait,
         ShowsJoin;
    EventCount(order);
    WholeRun(order);
    assert EventsOf(order)[..|order|] == EventsOf(order);
    WaitsIsWaiting(order, |order|, i);
    ShowsInRange(order, i, from, to);
    if WaitsBefore(order, |order|, i) {
      EventBefore(order, |order|, i);
      WaitItemIs(order, i);
      WaitPairsAre(order, i, from, to);
      JoinPairsAre(order, i, from, to);
    }
  }

  lemma {:induction false} ShowsInRange(order: seq<Node>, i: nat, from: Name, to: Name)
    ensures ShowsWait(order, i, from, to) || ShowsJoin(order, i, from, to) ==> WaitsBefore(order, |order|, i)
    ensures WaitsBefore(order, |order|, i) ==> i < |order|
  {}

  // ---------- The findings ----------

  /** The analysis reports exactly what the records show, each rule and pair of
      names once, at the first record that shows it. */
  lemma {:induction false} FindingsExact(order: seq<Node>, f: SyncFinding)
    ensures f in Analyze(EventsOf(order)) <==> IsFinding(order, f)
  {
    hide EventsOf, Analyze, Shows, Gives, GivesAtEnd;
    AnalysisHas(EventsOf(order), f);
    EventCount(order);
    forall i: nat
      ensures (if OfEnd(f.rule) then GivesAtEnd(EventsOf(order), i, f.rule, f.from, f.to)
               else Gives(EventsOf(order), i, f.rule, f.from, f.to))
              <==> Shows(order, i, f.rule, f.from, f.to)
    {
      if OfEnd(f.rule) {
        EndIsShows(order, i, f.rule, f.from, f.to);
      } else if i < |order| {
        GivesIsShows(order, i, f.rule, f.from, f.to);
      } else {
        NothingLater(order, i, f.rule, f.from, f.to);
      }
    }
  }

  lemma {:induction false} NothingLater(order: seq<Node>, i: nat, rule: SyncRule, from: Name, to: Name)
    requires i >= |order|
    ensures !Gives(EventsOf(order), i, rule, from, to) && !Shows(order, i, rule, from, to)
  {
    hide EventsOf;
    EventCount(order);
  }
}
