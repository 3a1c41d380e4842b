/** What synchronization records say, read from their class, kind and
    identities: which locks are held and which waits are unfinished before a
    place of the order. The events of the analysis say the same. */
module SyncRecords {
  import opened Events
  import opened Numerals
  import opened SyncPlaces
  import opened SyncSpec

  // ---------- One record ----------

  predicate Is(n: Node, cls: string, kind: ResourceKind) {
    n.kind == ResourceRecord && n.resourceClass == cls && n.resourceKind == kind
  }

  predicate TakesLock(n: Node) {
    Is(n, "pthread-mutex-held", Acquire) || Is(n, "pthread-rwlock-held", Acquire)
  }

  predicate GivesLock(n: Node) {
    Is(n, "pthread-mutex-held", Release) || Is(n, "pthread-rwlock-held", Release)
  }

  predicate StartsLockWait(n: Node) {
    Is(n, "pthread-mutex-wait", Acquire) || Is(n, "pthread-rwlock-read-wait", Acquire)
    || Is(n, "pthread-rwlock-write-wait", Acquire)
  }

  predicate StartsCondition(n: Node) {
    Is(n, "pthread-condition-wait", Acquire)
  }

  predicate StartsJoin(n: Node) {
    Is(n, "pthread-join-wait", Acquire)
  }

  predicate StopsJoin(n: Node) {
    Is(n, "pthread-join-wait", Release)
  }

  predicate StopsWait(n: Node) {
    Is(n, "pthread-mutex-wait", Release) || Is(n, "pthread-rwlock-read-wait", Release)
    || Is(n, "pthread-rwlock-write-wait", Release) || Is(n, "pthread-condition-wait", Release)
  }

  predicate DestroysMutex(n: Node) {
    Is(n, "pthread-mutex", Release)
  }

  predicate EndsThread(n: Node) {
    Is(n, "pthread-joinable-thread", Release)
  }

  /** Attempts and blocking operations count whatever their kind. */
  predicate ConsumesThread(n: Node) {
    n.kind == ResourceRecord && n.resourceClass == "pthread-terminal-attempt"
  }

  predicate Blocks(n: Node) {
    n.kind == ResourceRecord && n.resourceClass == "blocking-operation"
  }

  predicate StartsWait(n: Node) {
    StartsJoin(n) || StartsCondition(n) || StartsLockWait(n)
  }

  predicate StopsAny(n: Node) {
    StopsJoin(n) || StopsWait(n)
  }

  function Who(n: Node): Name {
    Name(n.pid, Decimal(n.context))
  }

  function What(n: Node): Name {
    Name(n.pid, BeforeAt(n.resourceId))
  }

  function Whom(n: Node): Name {
    Name(n.pid, BeforeAt(n.relatedId))
  }

  /** A join is kept under the thread it names first, other waits under their own. */
  function Waiter(n: Node): Name {
    if StartsJoin(n) || StopsJoin(n) then What(n) else Who(n)
  }

  /** The mutex of a condition wait, the target of a join. */
  function Target(n: Node): Name {
    if StartsLockWait(n) then NoName else Whom(n)
  }

  // ---------- The operation of a record ----------

  lemma {:induction false} LockOperations(n: Node)
    ensures EventOf(n).op == AcquireLock <==> TakesLock(n)
    ensures EventOf(n).op == ReleaseLock <==> GivesLock(n)
  {
    hide ThreadName, ResourceName;
  }

  lemma {:induction false} LockWaitOperation(n: Node)
    ensures EventOf(n).op == BeginWait <==> StartsLockWait(n)
  {
    hide ThreadName, ResourceName;
  }

  lemma {:induction false} ConditionOperation(n: Node)
    ensures EventOf(n).op == BeginCondition <==> StartsCondition(n)
  {
    hide ThreadName, ResourceName;
  }

  lemma {:induction false} JoinOperations(n: Node)
    ensures EventOf(n).op == BeginJoin <==> StartsJoin(n)
    ensures EventOf(n).op == EndJoin <==> StopsJoin(n)
  {
    hide ThreadName, ResourceName;
  }

  lemma {:induction false} StopOperation(n: Node)
    ensures EventOf(n).op == EndWait <==> StopsWait(n)
  {
    hide ThreadName, ResourceName;
  }

  lemma {:induction false} WaitOperations(n: Node)
    ensures EventOf(n).op == BeginWait <==> StartsLockWait(n)
    ensures EventOf(n).op == BeginCondition <==> StartsCondition(n)
    ensures EventOf(n).op == BeginJoin <==> StartsJoin(n)
    ensures EventOf(n).op == EndWait <==> StopsWait(n)
    ensures EventOf(n).op == EndJoin <==> StopsJoin(n)
  {
    hide EventOf, StartsLockWait, StartsCondition, StartsJoin, StopsWait, StopsJoin;
    LockWaitOperation(n);
    ConditionOperation(n);
    JoinOperations(n);
    StopOperation(n);
  }

  lemma {:induction false} OtherOperations(n: Node)
    ensures EventOf(n).op == DestroyMutex <==> DestroysMutex(n)
    ensures EventOf(n).op == EndJoinable <==> EndsThread(n)
    ensures EventOf(n).op == AttemptTerminal <==> ConsumesThread(n)
    ensures EventOf(n).op == BlockingOperation <==> Blocks(n)
  {
    hide ThreadName, ResourceName;
  }

  predicate HasMeaning(n: Node) {
    TakesLock(n) || GivesLock(n) || StartsWait(n) || StopsAny(n) || DestroysMutex(n) || EndsThread(n)
    || ConsumesThread(n) || Blocks(n)
  }

  ghost predicate CanMean(n: Node) {
    exists kind: ResourceKind :: HasMeaning(n.(resourceKind := kind))
  }

  lemma {:induction false} MeaningIsOperation(n: Node)
    ensures HasMeaning(n) <==> EventOf(n).op != Ignored
  {
    hide EventOf, TakesLock, GivesLock, StartsLockWait, StartsCondition, StartsJoin, StopsWait, StopsJoin,
         DestroysMutex, EndsThread, ConsumesThread, Blocks;
    LockOperations(n);
    WaitOperations(n);
    OtherOperations(n);
  }

  /** Schedules move exactly the records of a class that means something when
      acquired or released. */
  lemma {:induction false} SyncNodesCanMean(n: Node)
    ensures IsSyncNode(n) <==> CanMean(n)
  {
    hide EventOf, HasMeaning, Operation, SynchronizationClass;
    forall kind: ResourceKind
      ensures HasMeaning(n.(resourceKind := kind)) ==> IsSyncNode(n)
    {
      MeaningIsOperation(n.(resourceKind := kind));
      if HasMeaning(n.(resourceKind := kind)) {
        OnlySyncNodesOperate(n.(resourceKind := kind));
      }
    }
    if IsSyncNode(n) {
      SyncNodesOperate(n);
      MeaningIsOperation(n.(resourceKind := Acquire));
      MeaningIsOperation(n.(resourceKind := Release));
    }
  }

  lemma {:induction false} OnlySyncNodesOperate(n: Node)
    requires EventOf(n).op != Ignored
    ensures IsSyncNode(n)
  {
    hide Operation, ThreadName, ResourceName, SynchronizationClass;
  }

  lemma {:induction false} SyncNodesOperate(n: Node)
    requires IsSyncNode(n)
    ensures EventOf(n.(resourceKind := Acquire)).op != Ignored || EventOf(n.(resourceKind := Release)).op != Ignored
  {
    hide ThreadName, ResourceName;
  }

  lemma {:induction false} NamesOfEvent(n: Node)
    ensures EventOf(n).thread == Who(n) && EventOf(n).resource == What(n) && EventOf(n).related == Whom(n)
  {
    hide Operation, IsSyncNode;
  }

  lemma {:induction false} ReadsAs(n: Node)
    ensures Begins(EventOf(n)) <==> StartsWait(n)
    ensures EndsWait(EventOf(n)) <==> StopsAny(n)
    ensures WaiterOf(EventOf(n)) == Waiter(n)
    ensures EventOf(n).op != BeginWait ==> TargetOf(EventOf(n)) == Whom(n)
    ensures StartsLockWait(n) ==> TargetOf(EventOf(n)) == NoName
  {
    hide EventOf, StartsLockWait, StartsCondition, StartsJoin, StopsWait, StopsJoin;
    WaitOperations(n);
    NamesOfEvent(n);
  }

  // ---------- What is held and waited for ----------

  function Shorter(places: seq<nat>): seq<nat> {
    if places == [] then [] else places[..|places| - 1]
  }

  /** Where the thread took the lock before place k and has not given it back,
      oldest first. */
  function HeldAt(order: seq<Node>, k: nat, thread: Name, lock: Name): seq<nat>
    requires k <= |order|
  {
    if k == 0 then []
    else
      var n, before := order[k - 1], HeldAt(order, k - 1, thread, lock);
      if Who(n) != thread || What(n) != lock then before
      else if TakesLock(n) then before + [k - 1]
      else if GivesLock(n) then Shorter(before)
      else before
  }

  /** Where waits kept under the thread for the resource began before place k
      that have not ended, oldest first. */
  function WaitsAt(order: seq<Node>, k: nat, thread: Name, resource: Name): seq<nat>
    requires k <= |order|
  {
    if k == 0 then []
    else
      var n, before := order[k - 1], WaitsAt(order, k - 1, thread, resource);
      if Waiter(n) != thread || What(n) != resource then before
      else if StartsWait(n) then before + [k - 1]
      else if StopsAny(n) then Shorter(before)
      else before
  }

  /** The lock taken at j is held before place k. */
  predicate HeldBefore(order: seq<Node>, k: nat, j: nat) {
    j < k <= |order| && TakesLock(order[j]) && j in HeldAt(order, k, Who(order[j]), What(order[j]))
  }

  /** The wait begun at j is unfinished before place k. */
  predicate WaitsBefore(order: seq<Node>, k: nat, j: nat) {
    j < k <= |order| && StartsWait(order[j]) && j in WaitsAt(order, k, Waiter(order[j]), What(order[j]))
  }

  lemma {:induction false} PrefixOfEvents(order: seq<Node>, k: nat)
    requires k < |order|
    ensures |EventsOf(order)| == |order| && EventsOf(order)[k] == EventOf(order[k])
    ensures EventsOf(order)[..k + 1][..k] == EventsOf(order)[..k] && |EventsOf(order)[..k + 1]| == k + 1
    ensures EventsOf(order)[..k + 1][k] == EventOf(order[k])
  {
    hide EventOf;
  }

  lemma {:induction false} HeldAtIs(order: seq<Node>, k: nat, thread: Name, lock: Name)
    requires k <= |order|
    ensures HeldAt(order, k, thread, lock) == HeldPlaces(EventsOf(order)[..k], thread, lock)
  {
    hide EventOf, EventsOf, TakesLock, GivesLock, Who, What;
    if k > 0 {
      HeldAtIs(order, k - 1, thread, lock);
      PrefixOfEvents(order, k - 1);
      NamesOfEvent(order[k - 1]);
      LockOperations(order[k - 1]);
    }
  }

  lemma {:induction false} WaitsAtIs(order: seq<Node>, k: nat, thread: Name, resource: Name)
    requires k <= |order|
    ensures WaitsAt(order, k, thread, resource) == WaitPlaces(EventsOf(order)[..k], thread, resource)
  {
    hide EventOf, EventsOf, StartsWait, StopsAny, Who, What, Waiter, Begins, EndsWait, WaiterOf;
    if k > 0 {
      WaitsAtIs(order, k - 1, thread, resource);
      PrefixOfEvents(order, k - 1);
      NamesOfEvent(order[k - 1]);
      ReadsAs(order[k - 1]);
    }
  }

  lemma {:induction false} EventBefore(order: seq<Node>, k: nat, j: nat)
    requires j < k <= |order|
    ensures |EventsOf(order)[..k]| == k && EventsOf(order)[..k][j] == EventOf(order[j])
  {
    hide EventOf;
  }

  lemma {:induction false} HeldIsHolding(order: seq<Node>, k: nat, j: nat)
    requires k <= |order|
    ensures Holding(EventsOf(order)[..k], j) <==> HeldBefore(order, k, j)
  {
    hide EventOf, EventsOf, TakesLock, Who, What, HeldAt, HeldPlaces;
    assert |EventsOf(order)[..k]| == k by { EventCount(order); }
    if j < k {
      EventBefore(order, k, j);
      NamesOfEvent(order[j]);
      LockOperations(order[j]);
      HeldAtIs(order, k, Who(order[j]), What(order[j]));
    }
  }

  lemma {:induction false} EventCount(order: seq<Node>)
    ensures |EventsOf(order)| == |order|
  {
    hide EventOf;
  }

  lemma {:induction false} WaitsIsWaiting(order: seq<Node>, k: nat, j: nat)
    requires k <= |order|
    ensures Waiting(EventsOf(order)[..k], j) <==> WaitsBefore(order, k, j)
  {
    hide EventOf, EventsOf, StartsWait, Who, What, Waiter, WaitsAt, WaitPlaces, Begins, WaiterOf;
    assert |EventsOf(order)[..k]| == k by { EventCount(order); }
    if j < k {
      EventBefore(order, k, j);
      NamesOfEvent(order[j]);
      ReadsAs(order[j]);
      WaitsAtIs(order, k, Waiter(order[j]), What(order[j]));
    }
  }

  // ---------- The tables ----------

  function HeldOf(order: seq<Node>, j: nat): SyncItem
    requires j < |order|
  {
    SyncItem(false, Who(order[j]), What(order[j]), NoName, j)
  }

  function WaitOf(order: seq<Node>, j: nat): SyncItem
    requires j < |order|
  {
    SyncItem(StartsJoin(order[j]), Waiter(order[j]), What(order[j]), Target(order[j]), j)
  }

  lemma {:induction false} HoldsAre(order: seq<Node>, k: nat, h: SyncItem)
    requires k <= |order|
    ensures h in Run(EventsOf(order)[..k]).holds
            <==> HeldBefore(order, k, h.at) && h.at < |order| && h == HeldOf(order, h.at)
  {
    hide Run, EventOf, EventsOf, Holding, Who, What, HeldBefore;
    EventCount(order);
    HoldsAreHolding(EventsOf(order)[..k], h);
    HeldIsHolding(order, k, h.at);
    if h.at < k {
      EventBefore(order, k, h.at);
      NamesOfEvent(order[h.at]);
    } else {
      NotHeldLater(order, k, h.at);
    }
  }

  lemma {:induction false} NotHeldLater(order: seq<Node>, k: nat, j: nat)
    requires k <= j
    ensures !HeldBefore(order, k, j) && !WaitsBefore(order, k, j)
  {}

  lemma {:induction false} WaitItemIs(order: seq<Node>, j: nat)
    requires j < |order| && StartsWait(order[j])
    ensures WaitItem(EventOf(order[j]), j) == WaitOf(order, j)
  {
    hide EventOf, StartsLockWait, StartsCondition, StartsJoin, StopsJoin, Who, What, Whom, TargetOf, WaiterOf;
    NamesOfEvent(order[j]);
    WaitOperations(order[j]);
    ReadsAs(order[j]);
  }

  lemma {:induction false} WaitsAre(order: seq<Node>, k: nat, w: SyncItem)
    requires k <= |order|
    ensures w in Run(EventsOf(order)[..k]).waits
            <==> WaitsBefore(order, k, w.at) && w.at < |order| && w == WaitOf(order, w.at)
  {
    hide Run, EventOf, EventsOf, Waiting, WaitOf, WaitItem, WaitsAt, StartsWait;
    EventCount(order);
    WaitsAreWaiting(EventsOf(order)[..k], w);
    WaitsIsWaiting(order, k, w.at);
    if w.at < k {
      EventBefore(order, k, w.at);
      if StartsWait(order[w.at]) {
        WaitItemIs(order, w.at);
      }
    }
  }
}
