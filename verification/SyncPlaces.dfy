/** The locks held and the waits unfinished after some events, by the places in
    the event list where they began. The tables of the analysis hold the same. */
module SyncPlaces {
  import opened SyncSpec
  import opened SyncTheorems

  // ---------- What the event list says ----------

  predicate Begins(e: SyncEvent) {
    e.op == BeginJoin || e.op == BeginCondition || e.op == BeginWait
  }

  predicate EndsWait(e: SyncEvent) {
    e.op == EndJoin || e.op == EndWait
  }

  /** A wait is kept under its thread, a join under the thread it waits for. */
  function WaiterOf(e: SyncEvent): Name {
    if e.op == BeginJoin || e.op == EndJoin then e.resource else e.thread
  }

  function TargetOf(e: SyncEvent): Name {
    if e.op == BeginWait then NoName else e.related
  }

  function DropLast(s: seq<nat>): seq<nat> {
    if s == [] then [] else s[..|s| - 1]
  }

  /** An acquire of x by t adds its place, a release takes the last one away. */
  function HeldNext(places: seq<nat>, e: SyncEvent, at: nat, t: Name, x: Name): seq<nat> {
    if e.thread != t || e.resource != x then places
    else if e.op == AcquireLock then places + [at]
    else if e.op == ReleaseLock then DropLast(places)
    else places
  }

  /** Where t acquired x and has not released it, oldest first. */
  function HeldPlaces(events: seq<SyncEvent>, t: Name, x: Name): seq<nat> {
    if events == [] then []
    else
      var n := |events| - 1;
      HeldNext(HeldPlaces(events[..n], t, x), events[n], n, t, x)
  }

  function WaitNext(places: seq<nat>, e: SyncEvent, at: nat, t: Name, q: Name): seq<nat> {
    if WaiterOf(e) != t || e.resource != q then places
    else if Begins(e) then places + [at]
    else if EndsWait(e) then DropLast(places)
    else places
  }

  /** Where waits kept under t for q began that have not ended, oldest first. */
  function WaitPlaces(events: seq<SyncEvent>, t: Name, q: Name): seq<nat> {
    if events == [] then []
    else
      var n := |events| - 1;
      WaitNext(WaitPlaces(events[..n], t, q), events[n], n, t, q)
  }

  /** Event i acquired a lock that is still held. */
  predicate Holding(events: seq<SyncEvent>, i: nat) {
    i < |events| && events[i].op == AcquireLock && i in HeldPlaces(events, events[i].thread, events[i].resource)
  }

  /** Event i began a wait that is still unfinished. */
  predicate Waiting(events: seq<SyncEvent>, i: nat) {
    i < |events| && Begins(events[i]) && i in WaitPlaces(events, WaiterOf(events[i]), events[i].resource)
  }

  // ---------- Places in a table ----------

  function PlacesOf(items: seq<SyncItem>, t: Name, x: Name): seq<nat> {
    if items == [] then []
    else
      var last := items[|items| - 1];
      PlacesOf(items[..|items| - 1], t, x) + (if Matches(last, t, x) then [last.at] else [])
  }

  lemma {:induction false} PlacesAppend(items: seq<SyncItem>, item: SyncItem, t: Name, x: Name)
    ensures PlacesOf(items + [item], t, x) == PlacesOf(items, t, x) + (if Matches(item, t, x) then [item.at] else [])
  {
    assert (items + [item])[..|items|] == items;
  }

  lemma {:induction false} PlacesAfterRemoval(items: seq<SyncItem>, thread: Name, resource: Name, t: Name, x: Name)
    ensures PlacesOf(RemoveLastMatch(items, thread, resource), t, x)
            == if t == thread && x == resource then DropLast(PlacesOf(items, t, x)) else PlacesOf(items, t, x)
  {
    if items != [] {
      var n := |items| - 1;
      var last, init := items[n], items[..n];
      PlacesAfterRemoval(init, thread, resource, t, x);
      assert PlacesOf(init, t, x) + [] == PlacesOf(init, t, x);
      if !Matches(last, thread, resource) {
        PlacesAppend(RemoveLastMatch(init, thread, resource), last, t, x);
      }
    }
  }

  lemma {:induction false} InPlaces(items: seq<SyncItem>, t: Name, x: Name, i: nat)
    ensures i in PlacesOf(items, t, x) <==> exists h :: h in items && Matches(h, t, x) && h.at == i
  {
    if items != [] {
      var n := |items| - 1;
      InPlaces(items[..n], t, x, i);
      assert forall h :: h in items <==> h in items[..n] || h == items[n];
    }
  }

  lemma {:induction false} RemovalKeepsOthers(items: seq<SyncItem>, thread: Name, resource: Name)
    ensures forall h :: h in RemoveLastMatch(items, thread, resource) ==> h in items
  {
    if items != [] {
      RemovalKeepsOthers(items[..|items| - 1], thread, resource);
    }
  }

  // ---------- The tables after one event ----------

  function HeldItem(e: SyncEvent, at: nat): SyncItem {
    SyncItem(false, e.thread, e.resource, NoName, at)
  }

  function WaitItem(e: SyncEvent, at: nat): SyncItem {
    SyncItem(e.op == BeginJoin, WaiterOf(e), e.resource, TargetOf(e), at)
  }

  lemma {:induction false} HoldsStep(s: SyncState, e: SyncEvent, at: nat)
    ensures Step(s, e, at).holds
            == if e.op == AcquireLock then s.holds + [HeldItem(e, at)]
               else if e.op == ReleaseLock then RemoveLastMatch(s.holds, e.thread, e.resource)
               else s.holds
  {
    hide ReportEach, RemoveLastMatch, HoldersOf, WaitersOn, ClosingLocks, OtherMutexWaits, TopOf, TopMismatch, Stack;
  }

  lemma {:induction false} WaitsStep(s: SyncState, e: SyncEvent, at: nat)
    ensures Step(s, e, at).waits
            == if Begins(e) then s.waits + [WaitItem(e, at)]
               else if EndsWait(e) then RemoveLastMatch(s.waits, WaiterOf(e), e.resource)
               else s.waits
  {
    hide ReportEach, RemoveLastMatch, HoldersOf, WaitersOn, ClosingLocks, OtherMutexWaits, TopOf, TopMismatch, Stack;
  }

  lemma {:induction false} HeldPlacesStep(s: SyncState, e: SyncEvent, at: nat, t: Name, x: Name)
    ensures PlacesOf(Step(s, e, at).holds, t, x) == HeldNext(PlacesOf(s.holds, t, x), e, at, t, x)
  {
    hide Step, RemoveLastMatch;
    HoldsStep(s, e, at);
    if e.op == AcquireLock {
      PlacesAppend(s.holds, HeldItem(e, at), t, x);
      assert PlacesOf(s.holds, t, x) + [] == PlacesOf(s.holds, t, x);
    } else if e.op == ReleaseLock {
      PlacesAfterRemoval(s.holds, e.thread, e.resource, t, x);
    }
  }

  lemma {:induction false} WaitPlacesStep(s: SyncState, e: SyncEvent, at: nat, t: Name, q: Name)
    ensures PlacesOf(Step(s, e, at).waits, t, q) == WaitNext(PlacesOf(s.waits, t, q), e, at, t, q)
  {
    hide Step, RemoveLastMatch;
    WaitsStep(s, e, at);
    if Begins(e) {
      PlacesAppend(s.waits, WaitItem(e, at), t, q);
      assert PlacesOf(s.waits, t, q) + [] == PlacesOf(s.waits, t, q);
    } else if EndsWait(e) {
      PlacesAfterRemoval(s.waits, WaiterOf(e), e.resource, t, q);
    }
  }

  // ---------- The tables after a run ----------

  lemma {:induction false} TablesHavePlaces(events: seq<SyncEvent>, t: Name, x: Name)
    ensures PlacesOf(Run(events).holds, t, x) == HeldPlaces(events, t, x)
    ensures PlacesOf(Run(events).waits, t, x) == WaitPlaces(events, t, x)
  {
    hide Step, HeldNext, WaitNext;
    if events != [] {
      var n := |events| - 1;
      TablesHavePlaces(events[..n], t, x);
      HeldPlacesStep(Run(events[..n]), events[n], n, t, x);
      WaitPlacesStep(Run(events[..n]), events[n], n, t, x);
    }
  }

  ghost predicate IsHeldItem(events: seq<SyncEvent>, h: SyncItem) {
    h.at < |events| && events[h.at].op == AcquireLock && h == HeldItem(events[h.at], h.at)
  }

  ghost predicate IsWaitItem(events: seq<SyncEvent>, w: SyncItem) {
    w.at < |events| && Begins(events[w.at]) && w == WaitItem(events[w.at], w.at)
  }

  /** Places in a table rise. */
  ghost predicate Rising(items: seq<SyncItem>) {
    forall i, j :: 0 <= i < j < |items| ==> items[i].at < items[j].at
  }

  lemma {:induction false} LastIsNew(items: seq<SyncItem>)
    requires Rising(items) && items != []
    ensures Rising(items[..|items| - 1])
    ensures forall h :: h in items[..|items| - 1] ==> h.at < items[|items| - 1].at
    ensures forall h :: h in items <==> h in items[..|items| - 1] || h == items[|items| - 1]
  {
    assert items == items[..|items| - 1] + [items[|items| - 1]];
  }

  ghost predicate TablesOk(events: seq<SyncEvent>) {
    var s := Run(events);
    && Rising(s.holds) && Rising(s.waits)
    && (forall h :: h in s.holds ==> IsHeldItem(events, h))
    && (forall w :: w in s.waits ==> IsWaitItem(events, w))
  }

  lemma {:induction false} RemovalKeepsRising(items: seq<SyncItem>, thread: Name, resource: Name)
    requires Rising(items)
    ensures Rising(RemoveLastMatch(items, thread, resource))
  {
    if items != [] {
      var n := |items| - 1;
      RemovalKeepsRising(items[..n], thread, resource);
      RemovalKeepsOthers(items[..n], thread, resource);
      if !Matches(items[n], thread, resource) {
        AppendKeepsRising(RemoveLastMatch(items[..n], thread, resource), items[n]);
      }
    }
  }

  lemma {:induction false} AppendKeepsRising(items: seq<SyncItem>, item: SyncItem)
    requires Rising(items) && forall h :: h in items ==> h.at < item.at
    ensures Rising(items + [item])
  {
    var all := items + [item];
    forall i, j | 0 <= i < j < |all|
      ensures all[i].at < all[j].at
    {
      assert all[i] in items;
    }
  }

  lemma {:induction false} HoldsStayOk(events: seq<SyncEvent>, e: SyncEvent, holds: seq<SyncItem>)
    requires Rising(holds) && forall h :: h in holds ==> IsHeldItem(events, h)
    ensures e.op == AcquireLock ==> Rising(holds + [HeldItem(e, |events|)])
    ensures Rising(RemoveLastMatch(holds, e.thread, e.resource))
    ensures forall h :: h in holds || h in RemoveLastMatch(holds, e.thread, e.resource) ==> IsHeldItem(events + [e], h)
    ensures e.op == AcquireLock ==> IsHeldItem(events + [e], HeldItem(e, |events|))
  {
    RemovalKeepsRising(holds, e.thread, e.resource);
    RemovalKeepsOthers(holds, e.thread, e.resource);
    AppendKeepsRising(holds, HeldItem(e, |events|));
  }

  lemma {:induction false} WaitsStayOk(events: seq<SyncEvent>, e: SyncEvent, waits: seq<SyncItem>)
    requires Rising(waits) && forall w :: w in waits ==> IsWaitItem(events, w)
    ensures Begins(e) ==> Rising(waits + [WaitItem(e, |events|)])
    ensures Rising(RemoveLastMatch(waits, WaiterOf(e), e.resource))
    ensures forall w ::
              w in waits || w in RemoveLastMatch(waits, WaiterOf(e), e.resource) ==> IsWaitItem(events + [e], w)
    ensures Begins(e) ==> IsWaitItem(events + [e], WaitItem(e, |events|))
  {
    RemovalKeepsRising(waits, WaiterOf(e), e.resource);
    RemovalKeepsOthers(waits, WaiterOf(e), e.resource);
    AppendKeepsRising(waits, WaitItem(e, |events|));
  }

  lemma {:induction false} TablesStayOk(events: seq<SyncEvent>)
    ensures TablesOk(events)
  {
    hide Step, Rising, IsHeldItem, IsWaitItem, RemoveLastMatch, HeldItem, WaitItem, WaiterOf;
    if events == [] {
      NothingBegun();
    } else {
      var n := |events| - 1;
      var init, e, s := events[..n], events[n], Run(events[..n]);
      TablesStayOk(init);
      assert init + [e] == events;
      HoldsStep(s, e, n);
      WaitsStep(s, e, n);
      HoldsStayOk(init, e, s.holds);
      WaitsStayOk(init, e, s.waits);
    }
  }

  lemma {:induction false} NothingBegun()
    ensures TablesOk([])
  {}

  // ---------- The tables are the event list's ----------

  /** The holds of the run are the acquires still held. */
  lemma {:induction false} HoldsAreHolding(events: seq<SyncEvent>, h: SyncItem)
    ensures h in Run(events).holds <==> Holding(events, h.at) && h.at < |events| && h == HeldItem(events[h.at], h.at)
  {
    hide Run, Rising, HeldPlaces;
    var holds := Run(events).holds;
    TablesStayOk(events);
    if h.at < |events| {
      var e := events[h.at];
      TablesHavePlaces(events, e.thread, e.resource);
      InPlaces(holds, e.thread, e.resource, h.at);
      assert Matches(HeldItem(e, h.at), e.thread, e.resource);
    }
  }

  /** The waits of the run are those begun and not ended. */
  lemma {:induction false} WaitsAreWaiting(events: seq<SyncEvent>, w: SyncItem)
    ensures w in Run(events).waits <==> Waiting(events, w.at) && w.at < |events| && w == WaitItem(events[w.at], w.at)
  {
    hide Run, Rising, WaitPlaces;
    var waits := Run(events).waits;
    TablesStayOk(events);
    if w.at < |events| {
      var e := events[w.at];
      TablesHavePlaces(events, WaiterOf(e), e.resource);
      InPlaces(waits, WaiterOf(e), e.resource, w.at);
      assert Matches(WaitItem(e, w.at), WaiterOf(e), e.resource);
    }
  }

  /** A thread holds a lock exactly when one of its acquires is still held. */
  lemma {:induction false} HeldMeansHolding(events: seq<SyncEvent>, t: Name, x: Name)
    ensures x in LocksHeld(events, t) <==> exists i: nat :: HoldingBy(events, i, t, x)
  {
    hide Run, LocksHeld, Holding;
    var holds := Run(events).holds;
    HoldsAreLocksHeld(events, t);
    InStack(holds, t, x);
    if h :| h in holds && Matches(h, t, x) {
      HoldsAreHolding(events, h);
      assert HoldingBy(events, h.at, t, x);
    }
    if i: nat :| HoldingBy(events, i, t, x) {
      HoldsAreHolding(events, HeldItem(events[i], i));
      assert Matches(HeldItem(events[i], i), t, x);
    }
  }

  predicate HoldingBy(events: seq<SyncEvent>, i: nat, t: Name, x: Name) {
    Holding(events, i) && i < |events| && events[i].thread == t && events[i].resource == x
  }

  lemma {:induction false} InStack(holds: seq<SyncItem>, t: Name, x: Name)
    ensures x in Stack(holds, t) <==> exists h :: h in holds && Matches(h, t, x)
  {
    if holds != [] {
      var n := |holds| - 1;
      InStack(holds[..n], t, x);
      assert Matches(holds[n], t, x) <==> holds[n].thread == t && holds[n].resource == x;
      assert forall h :: h in holds <==> h in holds[..n] || h == holds[n];
    }
  }
}
