/** Logs whose edges do not fit the edge tables of the synchronization
    analysis: locks taken one inside another, and one lock with many holders
    and many waiters. */
module SyncOverflows {
  import opened Events
  import opened FiniteSets
  import opened Numerals
  import opened SyncPlaces
  import opened SyncRecords
  import opened SyncSpec
  import opened SyncTables
  import opened SyncTheorems
  import opened SyncWaits

  // ---------- Locks taken one inside another ----------

  predicate AllAcquireBy(events: seq<SyncEvent>, t: Name) {
    forall i :: 0 <= i < |events| ==> events[i].op == AcquireLock && events[i].thread == t
  }

  predicate Different(events: seq<SyncEvent>) {
    forall i, j :: 0 <= i < j < |events| ==> events[i].resource != events[j].resource
  }

  lemma {:induction false} AllOthers(held: seq<Name>, x: Name)
    requires x !in held
    ensures OtherLocks(held, x) == |held|
  {
    if held != [] {
      AllOthers(held[..|held| - 1], x);
    }
  }

  lemma {:induction false} NestedAreHeld(events: seq<SyncEvent>, t: Name)
    requires AllAcquireBy(events, t)
    ensures |LocksHeld(events, t)| == |events|
    ensures forall k :: 0 <= k < |events| ==> LocksHeld(events, t)[k] == events[k].resource
  {
    if events != [] {
      NestedAreHeld(events[..|events| - 1], t);
    }
  }

  lemma {:induction false} NestedCount(events: seq<SyncEvent>, t: Name)
    requires AllAcquireBy(events, t) && Different(events)
    ensures 2 * LockEdgeCount(events) == |events| * (|events| - 1)
  {
    hide LocksHeld, OtherLocks;
    if events != [] {
      var n := |events| - 1;
      var init := events[..n];
      NestedCount(init, t);
      NestedAreHeld(init, t);
      AllOthers(LocksHeld(init, t), events[n].resource);
      assert LockEdgeCount(events) == LockEdgeCount(init) + n;
    }
  }

  lemma {:induction false} NothingWaited(events: seq<SyncEvent>)
    requires forall i :: 0 <= i < |events| ==> events[i].op == AcquireLock
    ensures WaitEdgeTotal(events) == 0
  {
    hide WaitPlaces, HeldPlaces;
    assert BlockedPairs(events) == {};
    assert OpenJoins(events) == {};
  }

  /** A thread that takes locks and gives none back, all different. */
  predicate NestedLocks(order: seq<Node>) {
    && (forall i :: 0 <= i < |order| ==> TakesLock(order[i]) && SameContext(order[0], order[i]))
    && (forall i, j :: 0 <= i < j < |order| ==> BeforeAt(order[i].resourceId) != BeforeAt(order[j].resourceId))
  }

  /** The tables have room for three locks taken one inside another, and for no
      more. */
  lemma {:induction false} NestedLocksOverflow(order: seq<Node>)
    requires NestedLocks(order)
    ensures 2 * LockEdgeCount(EventsOf(order)) == |order| * (|order| - 1)
    ensures TablesSuffice(EventsOf(order)) <==> |order| <= 3
  {
    hide TablesSuffice, LockEdgeCount, WaitEdgeTotal, EventOf, TakesLock, BeforeAt;
    var events := EventsOf(order);
    var t := if order == [] then NoName else Who(order[0]);
    forall i | 0 <= i < |order|
      ensures events[i].op == AcquireLock && events[i].thread == t
      ensures events[i].resource == What(order[i])
    {
      LockOperations(order[i]);
      WaitOperations(order[i]);
      NamesOfEvent(order[i]);
    }
    NestedCount(events, t);
    NothingWaited(events);
    TablesSufficeIff(events);
    FewPairs(|order|, LockEdgeCount(events));
  }

  lemma {:induction false} FewPairs(n: nat, pairs: nat)
    requires 2 * pairs == n * (n - 1)
    ensures pairs <= (if n == 0 then 1 else n) <==> n <= 3
  {
    if n >= 4 {
      assert n * (n - 1) >= n * 3;
    }
  }

  // ---------- One lock with holders and waiters ----------

  /** A lock that is not given back after an acquire is held. */
  lemma {:induction false} StillHeld(events: seq<SyncEvent>, i: nat)
    requires i < |events| && events[i].op == AcquireLock
    requires forall j :: i < j < |events| ==> events[j].op != ReleaseLock
    ensures Holding(events, i)
  {
    var n := |events| - 1;
    if i < n {
      StillHeld(events[..n], i);
    }
  }

  /** A wait that is not ended is unfinished. */
  lemma {:induction false} StillWaiting(events: seq<SyncEvent>, i: nat)
    requires i < |events| && Begins(events[i])
    requires forall j :: i < j < |events| ==> !EndsWait(events[j])
    ensures Waiting(events, i)
  {
    var n := |events| - 1;
    if i < n {
      StillWaiting(events[..n], i);
    }
  }

  /** The first h events acquire x, the others wait for it. */
  predicate HoldersThenWaiters(events: seq<SyncEvent>, x: Name, h: nat) {
    && h <= |events|
    && (forall i :: 0 <= i < |events| ==>
          events[i].resource == x && events[i].op == (if i < h then AcquireLock else BeginWait))
  }

  lemma {:induction false} NoOtherLock(held: seq<Name>, x: Name)
    requires forall y :: y in held ==> y == x
    ensures OtherLocks(held, x) == 0
  {
    if held != [] {
      var init := held[..|held| - 1];
      assert held[|held| - 1] in held;
      forall y | y in init
        ensures y == x
      {
        assert y in held;
      }
      NoOtherLock(init, x);
    }
  }

  lemma {:induction false} OneLockNoEdges(events: seq<SyncEvent>, x: Name, h: nat)
    requires HoldersThenWaiters(events, x, h)
    ensures LockEdgeCount(events) == 0
  {
    hide LocksHeld, OtherLocks, Holding;
    if events != [] {
      var n := |events| - 1;
      var init, t := events[..n], events[n].thread;
      OneLockNoEdges(init, x, if h <= n then h else n);
      forall y | y in LocksHeld(init, t)
        ensures y == x
      {
        HeldMeansHolding(init, t, y);
        var i: nat :| HoldingBy(init, i, t, y);
      }
      NoOtherLock(LocksHeld(init, t), x);
    }
  }

  /** Every number from lo up to hi, with every number below h. */
  ghost function Grid(lo: nat, hi: nat, h: nat): (s: set<(nat, nat)>)
    requires lo <= hi
    ensures forall p :: p in s <==> lo <= p.0 < hi && p.1 < h
  {
    if lo == hi then {} else Grid(lo, hi - 1, h) + Row(hi - 1, Below(h))
  }

  lemma {:induction false} GridSize(lo: nat, hi: nat, h: nat)
    requires lo <= hi
    ensures |Grid(lo, hi, h)| == (hi - lo) * h
    decreases hi
  {
    hide Grid;
    if lo < hi {
      GridSize(lo, hi - 1, h);
      GridGrows(lo, hi - 1, h);
      assert (hi - lo) * h == (hi - 1 - lo) * h + h;
    } else {
      assert Grid(lo, hi, h) == {};
    }
  }

  lemma {:induction false} GridGrows(lo: nat, at: nat, h: nat)
    requires lo <= at
    ensures |Grid(lo, at + 1, h)| == |Grid(lo, at, h)| + h
  {
    hide Grid;
    var row := Row(at, Below(h));
    RowSize(at, Below(h));
    forall p: (nat, nat)
      ensures p in row <==> p.0 == at && p.1 < h
    {
      assert p == (p.0, p.1);
    }
    assert Grid(lo, at + 1, h) == Grid(lo, at, h) + row;
    assert Grid(lo, at, h) !! row;
  }

  lemma {:induction false} WaitingBegan(events: seq<SyncEvent>, i: nat)
    ensures Waiting(events, i) ==> i < |events| && Begins(events[i])
  {}

  lemma {:induction false} HoldingAcquired(events: seq<SyncEvent>, i: nat)
    ensures Holding(events, i) ==> i < |events| && events[i].op == AcquireLock
  {}

  lemma {:induction false} WaitersAreBlocked(events: seq<SyncEvent>, x: Name, h: nat, i: nat, j: nat)
    requires HoldersThenWaiters(events, x, h) && i < |events| && j < |events|
    ensures Blocked(events, i, j) <==> h <= i && j < h
    ensures !Joining(events, i)
  {
    hide Waiting, Holding;
    WaitingBegan(events, i);
    HoldingAcquired(events, j);
    if h <= i && j < h {
      StillWaiting(events, i);
      StillHeld(events, j);
    }
  }

  lemma {:induction false} BlockedFillGrid(events: seq<SyncEvent>, x: Name, h: nat)
    requires h <= |events| && HoldersThenWaiters(events, x, h)
    ensures BlockedPairs(events) == Grid(h, |events|, h)
  {
    hide Blocked, Grid, HoldersThenWaiters;
    forall p: (nat, nat)
      ensures p in BlockedPairs(events) <==> p in Grid(h, |events|, h)
    {
      assert p == (p.0, p.1);
      if p.0 < |events| && p.1 < |events| {
        WaitersAreBlocked(events, x, h, p.0, p.1);
      }
    }
  }

  lemma {:induction false} AllAreBlocked(events: seq<SyncEvent>, x: Name, h: nat)
    requires h <= |events| && HoldersThenWaiters(events, x, h)
    ensures WaitEdgeTotal(events) == (|events| - h) * h
  {
    hide Blocked, BlockedPairs, Joining, Grid, HoldersThenWaiters;
    forall i: nat | i < |events|
      ensures !Joining(events, i)
    {
      WaitersAreBlocked(events, x, h, i, i);
    }
    assert OpenJoins(events) == {};
    BlockedFillGrid(events, x, h);
    GridSize(h, |events|, h);
  }

  /** The first h nodes acquire one lock of one process, the others wait for it. */
  predicate SharedLock(order: seq<Node>, h: nat) {
    && h <= |order|
    && (forall i :: 0 <= i < |order| ==>
          && (if i < h then TakesLock(order[i]) else StartsLockWait(order[i]))
          && order[i].pid == order[0].pid && BeforeAt(order[i].resourceId) == BeforeAt(order[0].resourceId))
  }

  /** Every waiter of a lock adds an edge for each of its holders. */
  lemma {:induction false} SharedLockOverflow(order: seq<Node>, h: nat)
    requires SharedLock(order, h)
    ensures LockEdgeCount(EventsOf(order)) == 0 && WaitEdgeTotal(EventsOf(order)) == (|order| - h) * h
    ensures TablesSuffice(EventsOf(order)) <==> (|order| - h) * h <= 2 * |order|
  {
    hide TablesSuffice, LockEdgeCount, WaitEdgeTotal, EventOf, TakesLock, StartsLockWait, BeforeAt;
    var events := EventsOf(order);
    var x := if order == [] then NoName else What(order[0]);
    forall i | 0 <= i < |order|
      ensures events[i].resource == x && events[i].op == (if i < h then AcquireLock else BeginWait)
    {
      LockOperations(order[i]);
      WaitOperations(order[i]);
      NamesOfEvent(order[i]);
    }
    OneLockNoEdges(events, x, h);
    AllAreBlocked(events, x, h);
    TablesSufficeIff(events);
  }

  // ---------- Two logs ----------

  /** A record of a thread of process 1 about a lock. */
  function LockNode(context: nat, sequence: nat, class_: string, id: string): Node {
    Node(ResourceRecord, Enter, Open, Alloc, Acquire, 1, 0, context, sequence, 0, false, 0, 0, 0, "", "", "", "", "",
         false, class_, id, "", "")
  }

  /** Mutexes 0, 1 and on, taken by one thread. */
  function Mutexes(k: nat): seq<Node> {
    seq(k, i requires 0 <= i < k => LockNode(1, i + 1, "pthread-mutex-held", Decimal(i)))
  }

  lemma {:induction false} NoAt(s: string)
    requires '@' !in s
    ensures BeforeAt(s) == s
  {
    if s != [] {
      assert s[0] in s && forall c :: c in s[1..] ==> c in s;
      NoAt(s[1..]);
    }
  }

  lemma {:induction false} DecimalHasNoAt(n: nat)
    ensures '@' !in Decimal(n)
  {
    if n >= 10 {
      DecimalHasNoAt(n / 10);
    }
  }

  lemma {:induction false} NamesDiffer(i: nat, j: nat)
    requires i != j
    ensures BeforeAt(Decimal(i)) != BeforeAt(Decimal(j))
  {
    hide Decimal, BeforeAt;
    DecimalHasNoAt(i);
    DecimalHasNoAt(j);
    NoAt(Decimal(i));
    NoAt(Decimal(j));
    if Decimal(i) == Decimal(j) {
      DecimalInjective(i, j);
    }
  }

  lemma {:induction false} MutexIsTaken(k: nat, i: nat)
    requires i < k
    ensures Mutexes(k)[i].resourceId == Decimal(i) && TakesLock(Mutexes(k)[i])
    ensures SameContext(Mutexes(k)[0], Mutexes(k)[i])
  {
    hide Decimal;
  }

  lemma {:induction false} MutexesAreNested(k: nat)
    ensures NestedLocks(Mutexes(k))
  {
    hide Decimal, BeforeAt, TakesLock, SameContext, LockNode;
    var order := Mutexes(k);
    forall i: nat | i < k
      ensures order[i].resourceId == Decimal(i) && TakesLock(order[i]) && SameContext(order[0], order[i])
    {
      MutexIsTaken(k, i);
    }
    forall i: nat, j: nat | i < j < k
      ensures BeforeAt(order[i].resourceId) != BeforeAt(order[j].resourceId)
    {
      NamesDiffer(i, j);
    }
  }

  /** Four mutexes taken one inside another give six edges for four nodes. */
  lemma {:induction false} FourNestedLocks()
    ensures |Mutexes(4)| == 4 && LockEdgeCount(EventsOf(Mutexes(4))) == 6 && !TablesSuffice(EventsOf(Mutexes(4)))
  {
    hide LockEdgeCount, TablesSuffice, EventsOf, NestedLocks;
    MutexesAreNested(4);
    NestedLocksOverflow(Mutexes(4));
  }

  /** A read-write lock held by threads 1 to h and waited for by w others. */
  function Readers(h: nat, w: nat): seq<Node> {
    seq(h + w, i requires 0 <= i < h + w => Reader(h, i))
  }

  function Reader(h: nat, i: nat): Node {
    LockNode(i + 1, i + 1, if i < h then "pthread-rwlock-held" else "pthread-rwlock-write-wait", "l")
  }

  lemma {:induction false} ReaderActs(h: nat, i: nat)
    ensures if i < h then TakesLock(Reader(h, i)) else StartsLockWait(Reader(h, i))
    ensures Reader(h, i).pid == 1 && Reader(h, i).resourceId == "l"
  {}

  lemma {:induction false} ReadersShareLock(h: nat, w: nat)
    ensures SharedLock(Readers(h, w), h)
  {
    hide BeforeAt, Reader, TakesLock, StartsLockWait;
    var order := Readers(h, w);
    forall i | 0 <= i < h + w
      ensures if i < h then TakesLock(order[i]) else StartsLockWait(order[i])
      ensures order[i].pid == 1 && order[i].resourceId == "l"
    {
      ReaderActs(h, i);
    }
  }

  /** Five holders and five waiters give 25 edges for ten nodes. */
  lemma {:induction false} FiveReadersFiveWriters()
    ensures WaitEdgeTotal(EventsOf(Readers(5, 5))) == 25 && |Readers(5, 5)| == 10
    ensures !TablesSuffice(EventsOf(Readers(5, 5)))
  {
    hide LockEdgeCount, WaitEdgeTotal, TablesSuffice, EventsOf, SharedLock;
    ReadersShareLock(5, 5);
    SharedLockOverflow(Readers(5, 5), 5);
  }
}
