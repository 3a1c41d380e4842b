/** analyze_synchronization: one pass over the ordered nodes with tombstoned
    tables of holds and waits, then the cycle checks over what is unfinished.
    Every method is tied to SyncSpec through State, which drops tombstones. */
module SyncAnalysis {
  import opened Events
  import opened Graphs
  import opened SyncReach
  import opened SyncEvidence
  import opened SyncFindings
  import opened SyncSpec
  import opened SyncTheorems

  datatype SyncSlot = SyncSlot(active: bool, item: SyncItem)

  function Active(slots: seq<SyncSlot>): seq<SyncItem> {
    if slots == [] then []
    else
      var last := slots[|slots| - 1];
      Active(slots[..|slots| - 1]) + (if last.active then [last.item] else [])
  }

  lemma {:induction false} ActiveNext(slots: seq<SyncSlot>, k: nat)
    requires k < |slots|
    ensures Active(slots[..k + 1]) == Active(slots[..k]) + (if slots[k].active then [slots[k].item] else [])
  {
    assert slots[..k + 1][..k] == slots[..k];
  }

  lemma {:induction false} ActiveAppend(slots: seq<SyncSlot>, item: SyncItem)
    ensures Active(slots + [SyncSlot(true, item)]) == Active(slots) + [item]
  {
    assert (slots + [SyncSlot(true, item)])[..|slots|] == slots;
  }

  lemma {:induction false} ActiveConcat(a: seq<SyncSlot>, b: seq<SyncSlot>)
    ensures Active(a + b) == Active(a) + Active(b)
  {
    if b == [] {
      assert a + b == a && Active(a) + [] == Active(a);
    } else {
      var n := |b| - 1;
      ActiveConcat(a, b[..n]);
      assert (a + b)[..|a| + n] == a + b[..n];
    }
  }

  lemma {:induction false} StackNext(items: seq<SyncItem>, item: SyncItem, thread: Name)
    ensures Stack(items + [item], thread)
            == Stack(items, thread) + (if item.thread == thread then [item.resource] else [])
  {
    assert (items + [item])[..|items|] == items;
  }

  lemma {:induction false} ReportEachNext(fs: seq<SyncFinding>, rule: SyncRule, pairs: seq<(Name, Name)>, from: Name,
                                          to: Name, at: nat)
    ensures ReportEach(fs, rule, pairs + [(from, to)], at)
            == Report(ReportEach(fs, rule, pairs, at), rule, from, to, at)
  {
    assert (pairs + [(from, to)])[..|pairs|] == pairs;
  }

  lemma {:induction false} ReportOne(fs: seq<SyncFinding>, rule: SyncRule, from: Name, to: Name, at: nat)
    ensures ReportEach(fs, rule, [(from, to)], at) == Report(fs, rule, from, to, at)
  {
    ReportEachNext(fs, rule, [], from, to, at);
    assert [] + [(from, to)] == [(from, to)];
  }

  // ---------- Searches from the newest entry ----------

  lemma {:induction false} TopStep(slots: seq<SyncSlot>, k: nat, thread: Name)
    requires k < |slots|
    ensures Stack(Active(slots[..k + 1]), thread)
            == Stack(Active(slots[..k]), thread)
               + (if slots[k].active && slots[k].item.thread == thread then [slots[k].item.resource] else [])
  {
    ActiveNext(slots, k);
    if slots[k].active {
      StackNext(Active(slots[..k]), slots[k].item, thread);
    } else {
      assert Active(slots[..k]) + [] == Active(slots[..k]);
      assert Stack(Active(slots[..k]), thread) + [] == Stack(Active(slots[..k]), thread);
    }
  }

  /** The newest lock the thread still holds is the top of its stack. */
  method FindTop(slots: seq<SyncSlot>, thread: Name) returns (found: bool, resource: Name)
    ensures found <==> Stack(Active(slots), thread) != []
    ensures found ==> resource == Stack(Active(slots), thread)[|Stack(Active(slots), thread)| - 1]
  {
    found, resource := false, NoName;
    var k := |slots|;
    assert slots[..k] == slots;
    ghost var stack := Stack(Active(slots), thread);
    while k > 0
      invariant k <= |slots| && Stack(Active(slots[..k]), thread) == stack
    {
      var slot := slots[k - 1];
      TopStep(slots, k - 1, thread);
      if slot.active && slot.item.thread == thread {
        return true, slot.item.resource;
      }
      k := k - 1;
    }
  }

  lemma {:induction false} EndMatch(slots: seq<SyncSlot>, k: nat, thread: Name, resource: Name)
    requires k < |slots| && slots[k].active && Matches(slots[k].item, thread, resource)
    ensures EndedWithin(slots, k + 1, thread, resource) == Active(slots[k := slots[k].(active := false)])
  {
    var before, ended := Active(slots[..k]), slots[k].(active := false);
    ActiveNext(slots, k);
    assert (before + [slots[k].item])[..|before|] == before;
    assert slots[k := ended] == (slots[..k] + [ended]) + slots[k + 1..];
    ActiveConcat(slots[..k] + [ended], slots[k + 1..]);
    ActiveConcat(slots[..k], [ended]);
    assert Active([ended]) == [];
  }

  lemma {:induction false} EndSkip(slots: seq<SyncSlot>, k: nat, thread: Name, resource: Name)
    requires k < |slots| && !(slots[k].active && Matches(slots[k].item, thread, resource))
    ensures EndedWithin(slots, k + 1, thread, resource) == EndedWithin(slots, k, thread, resource)
  {
    var before, here := Active(slots[..k]), if slots[k].active then [slots[k].item] else [];
    ActiveNext(slots, k);
    assert slots[k..] == [slots[k]] + slots[k + 1..];
    ActiveConcat([slots[k]], slots[k + 1..]);
    assert Active([slots[k]]) == here;
    if slots[k].active {
      assert (before + here)[..|before|] == before;
      assert RemoveLastMatch(before + here, thread, resource) == RemoveLastMatch(before, thread, resource) + here;
    } else {
      assert before + here == before;
    }
  }

  /** What ending the last match among the first k entries makes of them all. */
  ghost function EndedWithin(slots: seq<SyncSlot>, k: nat, thread: Name, resource: Name): seq<SyncItem>
    requires k <= |slots|
  {
    RemoveLastMatch(Active(slots[..k]), thread, resource) + Active(slots[k..])
  }

  lemma {:induction false} EndedWithinEnds(slots: seq<SyncSlot>, thread: Name, resource: Name)
    ensures EndedWithin(slots, |slots|, thread, resource) == RemoveLastMatch(Active(slots), thread, resource)
    ensures EndedWithin(slots, 0, thread, resource) == Active(slots)
  {
    assert slots[..|slots|] == slots && slots[0..] == slots;
  }

  /** Ends the newest active entry of the thread and resource, if any. */
  method EndLast(slots: seq<SyncSlot>, thread: Name, resource: Name) returns (result: seq<SyncSlot>)
    ensures |result| == |slots|
    ensures Active(result) == RemoveLastMatch(Active(slots), thread, resource)
  {
    hide RemoveLastMatch, Active, EndedWithin;
    ghost var goal := RemoveLastMatch(Active(slots), thread, resource);
    EndedWithinEnds(slots, thread, resource);
    var k := |slots|;
    while k > 0 && !(slots[k - 1].active && Matches(slots[k - 1].item, thread, resource))
      invariant 0 <= k <= |slots| && EndedWithin(slots, k, thread, resource) == goal
    {
      EndSkip(slots, k - 1, thread, resource);
      k := k - 1;
    }
    result := slots;
    if k > 0 {
      EndMatch(slots, k - 1, thread, resource);
      result := slots[k - 1 := slots[k - 1].(active := false)];
    }
  }

  // ---------- One more entry in a selection ----------

  lemma {:induction false} SelectionsNext(items: seq<SyncItem>, item: SyncItem, resource: Name, target: Name)
    ensures HoldersOf(items + [item], resource)
            == HoldersOf(items, resource) + (if item.resource == resource then [(resource, item.thread)] else [])
    ensures WaitersOn(items + [item], resource)
            == WaitersOn(items, resource)
               + (if item.resource == resource || item.target == resource then [(resource, item.thread)] else [])
    ensures OtherMutexWaits(items + [item], resource, target)
            == OtherMutexWaits(items, resource, target)
               + (if item.resource == resource && item.target != target then [(resource, target)] else [])
  {
    assert (items + [item])[..|items|] == items;
  }

  lemma {:induction false} LockSelectionsNext(g: set<(Name, Name)>, stack: seq<Name>, lock: Name, resource: Name)
    ensures NewLockEdges(stack + [lock], resource)
            == NewLockEdges(stack, resource) + (if lock != resource then [SyncEdge(lock, resource)] else [])
    ensures ClosingLocks(g, stack + [lock], resource)
            == ClosingLocks(g, stack, resource)
               + (if lock != resource && Reaches(g, resource, lock) then [(lock, resource)] else [])
  {
    assert (stack + [lock])[..|stack|] == stack;
  }

  /** Reporting what the first k entries of a table contribute. */
  ghost function HoldersReported(fs: seq<SyncFinding>, rule: SyncRule, slots: seq<SyncSlot>, k: nat, resource: Name,
                                 at: nat): seq<SyncFinding>
    requires k <= |slots|
  {
    ReportEach(fs, rule, HoldersOf(Active(slots[..k]), resource), at)
  }

  lemma {:induction false} HoldersReportedNext(fs: seq<SyncFinding>, rule: SyncRule, slots: seq<SyncSlot>, k: nat,
                                               resource: Name, at: nat)
    requires k < |slots|
    ensures HoldersReported(fs, rule, slots, k + 1, resource, at)
            == var before := HoldersReported(fs, rule, slots, k, resource, at);
               if slots[k].active && slots[k].item.resource == resource then
                 Report(before, rule, resource, slots[k].item.thread, at)
               else before
  {
    var items := Active(slots[..k]);
    ActiveNext(slots, k);
    SelectionsNext(items, slots[k].item, resource, NoName);
    ReportEachNext(fs, rule, HoldersOf(items, resource), resource, slots[k].item.thread, at);
    assert items + [] == items && HoldersOf(items, resource) + [] == HoldersOf(items, resource);
  }

  ghost function WaitersReported(fs: seq<SyncFinding>, first: seq<(Name, Name)>, slots: seq<SyncSlot>, k: nat,
                                 resource: Name, at: nat): seq<SyncFinding>
    requires k <= |slots|
  {
    ReportEach(fs, BusyMutexDestroyed, first + WaitersOn(Active(slots[..k]), resource), at)
  }

  lemma {:induction false} WaitersReportedNext(fs: seq<SyncFinding>, first: seq<(Name, Name)>, slots: seq<SyncSlot>,
                                               k: nat, resource: Name, at: nat)
    requires k < |slots|
    ensures WaitersReported(fs, first, slots, k + 1, resource, at)
            == var before, item := WaitersReported(fs, first, slots, k, resource, at), slots[k].item;
               if slots[k].active && (item.resource == resource || item.target == resource)
               then Report(before, BusyMutexDestroyed, resource, item.thread, at) else before
  {
    var items, item := Active(slots[..k]), slots[k].item;
    ActiveNext(slots, k);
    SelectionsNext(items, item, resource, NoName);
    var pairs := WaitersOn(items, resource);
    assert first + (pairs + [(resource, item.thread)]) == (first + pairs) + [(resource, item.thread)];
    ReportEachNext(fs, BusyMutexDestroyed, first + pairs, resource, item.thread, at);
    assert items + [] == items && pairs + [] == pairs;
  }

  ghost function OtherMutexReported(fs: seq<SyncFinding>, slots: seq<SyncSlot>, k: nat, resource: Name, target: Name,
                                    at: nat): seq<SyncFinding>
    requires k <= |slots|
  {
    ReportEach(fs, ConditionMutexes, OtherMutexWaits(Active(slots[..k]), resource, target), at)
  }

  lemma {:induction false} OtherMutexReportedNext(fs: seq<SyncFinding>, slots: seq<SyncSlot>, k: nat, resource: Name,
                                                  target: Name, at: nat)
    requires k < |slots|
    ensures OtherMutexReported(fs, slots, k + 1, resource, target, at)
            == var before, item := OtherMutexReported(fs, slots, k, resource, target, at), slots[k].item;
               if slots[k].active && item.resource == resource && item.target != target
               then Report(before, ConditionMutexes, resource, target, at) else before
  {
    var items := Active(slots[..k]);
    ActiveNext(slots, k);
    SelectionsNext(items, slots[k].item, resource, target);
    var pairs := OtherMutexWaits(items, resource, target);
    ReportEachNext(fs, ConditionMutexes, pairs, resource, target, at);
    assert items + [] == items && pairs + [] == pairs;
  }

  /** Edges and findings once the first k holds have met the new lock. */
  ghost function AcquiredWith(edges: seq<SyncEdge<Name>>, fs: seq<SyncFinding>, slots: seq<SyncSlot>, k: nat,
                              e: SyncEvent, at: nat)
    : (seq<SyncEdge<Name>>, seq<SyncFinding>)
    requires k <= |slots|
  {
    var stack := Stack(Active(slots[..k]), e.thread);
    (edges + NewLockEdges(stack, e.resource),
     ReportEach(fs, LockOrderCycle, ClosingLocks(EdgeSet(edges), stack, e.resource), at))
  }

  lemma {:induction false} AcquiredWithNext(edges: seq<SyncEdge<Name>>, fs: seq<SyncFinding>, slots: seq<SyncSlot>,
                                            k: nat, e: SyncEvent, at: nat)
    requires k < |slots|
    ensures AcquiredWith(edges, fs, slots, k + 1, e, at)
            == var before, item := AcquiredWith(edges, fs, slots, k, e, at), slots[k].item;
               if slots[k].active && item.thread == e.thread && item.resource != e.resource
               then (before.0 + [SyncEdge(item.resource, e.resource)],
                     if Reaches(EdgeSet(before.0), e.resource, item.resource)
                     then Report(before.1, LockOrderCycle, item.resource, e.resource, at) else before.1)
               else before
  {
    var stack, lock := Stack(Active(slots[..k]), e.thread), slots[k].item.resource;
    TopStep(slots, k, e.thread);
    if slots[k].active && slots[k].item.thread == e.thread {
      AcquiredLockNext(edges, fs, stack, lock, e.resource, at);
    } else {
      assert stack + [] == stack;
    }
  }

  lemma {:induction false} AcquiredLockNext(edges: seq<SyncEdge<Name>>, fs: seq<SyncFinding>, stack: seq<Name>,
                                            lock: Name, resource: Name, at: nat)
    ensures var g, before, after :=
            EdgeSet(edges), edges + NewLockEdges(stack, resource), edges + NewLockEdges(stack + [lock], resource);
            var reported := ReportEach(fs, LockOrderCycle, ClosingLocks(g, stack, resource), at);
            after == (if lock != resource then before + [SyncEdge(lock, resource)] else before)
            && ReportEach(fs, LockOrderCycle, ClosingLocks(g, stack + [lock], resource), at)
               == if lock != resource && Reaches(EdgeSet(before), resource, lock)
                  then Report(reported, LockOrderCycle, lock, resource, at) else reported
  {
    hide Reaches, EdgeSet, Cyclic, Report, ReportEach, NewLockEdges, ClosingLocks;
    var g, added, pairs := EdgeSet(edges), NewLockEdges(stack, resource), ClosingLocks(EdgeSet(edges), stack, resource);
    LockSelectionsNext(g, stack, lock, resource);
    AcquireClosesCycle(edges, stack, resource);
    assert Reaches(EdgeSet(edges + added), resource, lock) <==> Reaches(g, resource, lock);
    ReportEachNext(fs, LockOrderCycle, pairs, lock, resource, at);
    assert pairs + [] == pairs && added + [] == added;
    assert edges + (added + [SyncEdge(lock, resource)]) == edges + added + [SyncEdge(lock, resource)];
  }

  // ---------- The analysis ----------

  class SyncAnalysis {
    var held: seq<SyncSlot>
    var waits: seq<SyncSlot>
    var terminated: seq<SyncSlot>
    var lockEdges: seq<SyncEdge<Name>>
    var findings: seq<SyncFinding>

    ghost function State(): SyncState
      reads this
    {
      SyncState(Active(held), Active(waits), Active(terminated), lockEdges, findings)
    }

    constructor ()
      ensures State() == EMPTY
    {
      held, waits, terminated, lockEdges, findings := [], [], [], [], [];
    }

    /** add_sync_finding: the same rule and evidence is recorded once. */
    method AddFinding(rule: SyncRule, from: Name, to: Name, at: nat)
      modifies `findings
      ensures findings == Report(old(findings), rule, from, to, at)
    {
      var index := 0;
      while index < |findings|
        invariant index <= |findings|
        invariant forall k :: 0 <= k < index ==> !SameFinding(findings[k], rule, from, to)
      {
        if SameFinding(findings[index], rule, from, to) {
          assert findings[index] in findings;
          return;
        }
        index := index + 1;
      }
      findings := findings + [SyncFinding(rule, from, to, at)];
    }

    method ReportHolders(rule: SyncRule, slots: seq<SyncSlot>, resource: Name, at: nat)
      modifies `findings
      ensures findings == ReportEach(old(findings), rule, HoldersOf(Active(slots), resource), at)
    {
      var index := 0;
      while index < |slots|
        invariant index <= |slots|
        invariant findings == HoldersReported(old(findings), rule, slots, index, resource, at)
      {
        HoldersReportedNext(old(findings), rule, slots, index, resource, at);
        if slots[index].active && slots[index].item.resource == resource {
          AddFinding(rule, resource, slots[index].item.thread, at);
        }
        index := index + 1;
      }
      assert slots[..index] == slots;
    }

    method DestroyMutex(e: SyncEvent, at: nat)
      requires e.op.DestroyMutex?
      modifies `findings
      ensures State() == Step(old(State()), e, at)
    {
      ReportHolders(BusyMutexDestroyed, held, e.resource, at);
      ghost var first := HoldersOf(Active(held), e.resource);
      var index := 0;
      assert first + WaitersOn(Active(waits[..0]), e.resource) == first;
      while index < |waits|
        invariant index <= |waits|
        invariant findings == WaitersReported(old(findings), first, waits, index, e.resource, at)
      {
        WaitersReportedNext(old(findings), first, waits, index, e.resource, at);
        var slot := waits[index];
        if slot.active && (slot.item.resource == e.resource || slot.item.target == e.resource) {
          AddFinding(BusyMutexDestroyed, e.resource, slot.item.thread, at);
        }
        index := index + 1;
      }
      assert waits[..index] == waits;
    }

    method AttemptTerminal(e: SyncEvent, at: nat)
      requires e.op.AttemptTerminal?
      modifies `findings
      ensures State() == Step(old(State()), e, at)
    {
      ReportHolders(ConsumedTwice, terminated, e.resource, at);
    }

    method EndJoinable(e: SyncEvent, at: nat)
      requires e.op.EndJoinable?
      modifies `terminated
      ensures State() == Step(old(State()), e, at)
    {
      var item := SyncItem(false, e.thread, e.resource, NoName, at);
      ActiveAppend(terminated, item);
      terminated := terminated + [SyncSlot(true, item)];
    }

    /** Reports the thread's newest lock against a blocking event. */
    method ReportTop(rule: SyncRule, e: SyncEvent, at: nat)
      modifies `findings
      ensures findings == ReportEach(old(findings), rule, TopOf(Stack(Active(held), e.thread), e.resource), at)
    {
      var found, top := FindTop(held, e.thread);
      if found {
        ReportOne(findings, rule, top, e.resource, at);
        AddFinding(rule, top, e.resource, at);
      }
    }

    method AcquireLock(e: SyncEvent, at: nat)
      requires e.op.AcquireLock?
      modifies `findings, `lockEdges, `held
      ensures State() == Step(old(State()), e, at)
    {
      var index := 0;
      assert lockEdges + [] == lockEdges;
      while index < |held|
        invariant index <= |held| && held == old(held)
        invariant (lockEdges, findings) == AcquiredWith(old(lockEdges), old(findings), held, index, e, at)
      {
        AcquiredWithNext(old(lockEdges), old(findings), held, index, e, at);
        var slot := held[index];
        if slot.active && slot.item.thread == e.thread && slot.item.resource != e.resource {
          var cycle := SyncReaches(lockEdges, e.resource, slot.item.resource);
          if cycle {
            AddFinding(LockOrderCycle, slot.item.resource, e.resource, at);
          }
          lockEdges := lockEdges + [SyncEdge(slot.item.resource, e.resource)];
        }
        index := index + 1;
      }
      assert held[..index] == held;
      var item := SyncItem(false, e.thread, e.resource, NoName, at);
      ActiveAppend(held, item);
      held := held + [SyncSlot(true, item)];
    }

    method ReleaseLock(e: SyncEvent, at: nat)
      requires e.op.ReleaseLock?
      modifies `findings, `held
      ensures State() == Step(old(State()), e, at)
    {
      var found, top := FindTop(held, e.thread);
      if found && top != e.resource {
        ReportOne(findings, ReleaseOrder, top, e.resource, at);
        AddFinding(ReleaseOrder, top, e.resource, at);
      }
      held := EndLast(held, e.thread, e.resource);
    }

    method BeginWait(e: SyncEvent, at: nat)
      requires e.op.BeginJoin? || e.op.BeginCondition? || e.op.BeginWait?
      modifies `findings, `waits
      ensures State() == Step(old(State()), e, at)
    {
      if e.op.BeginJoin? {
        ReportTop(JoinWhileHeld, e, at);
      }
      var item;
      if e.op.BeginJoin? {
        item := SyncItem(true, e.resource, e.resource, e.related, at);
      } else {
        item := SyncItem(false, e.thread, e.resource, if e.op.BeginCondition? then e.related else NoName, at);
        if e.op.BeginCondition? {
          ReportOtherMutexes(item.resource, item.target, at);
        }
      }
      ActiveAppend(waits, item);
      waits := waits + [SyncSlot(true, item)];
    }

    method ReportOtherMutexes(resource: Name, target: Name, at: nat)
      modifies `findings
      ensures findings
              == ReportEach(old(findings), ConditionMutexes, OtherMutexWaits(Active(waits), resource, target), at)
    {
      var index := 0;
      while index < |waits|
        invariant index <= |waits|
        invariant findings == OtherMutexReported(old(findings), waits, index, resource, target, at)
      {
        OtherMutexReportedNext(old(findings), waits, index, resource, target, at);
        var slot := waits[index];
        if slot.active && slot.item.resource == resource && slot.item.target != target {
          AddFinding(ConditionMutexes, resource, target, at);
        }
        index := index + 1;
      }
      assert waits[..index] == waits;
    }

    method EndWait(e: SyncEvent, at: nat)
      requires e.op.EndJoin? || e.op.EndWait?
      modifies `waits
      ensures State() == Step(old(State()), e, at)
    {
      hide RemoveLastMatch;
      var expected := if e.op.EndJoin? then e.resource else e.thread;
      waits := EndLast(waits, expected, e.resource);
    }

    /** One ordered node. */
    method Observe(e: SyncEvent, at: nat)
      modifies this
      ensures State() == Step(old(State()), e, at)
    {
      match e.op
      case DestroyMutex => DestroyMutex(e, at);
      case AttemptTerminal => AttemptTerminal(e, at);
      case EndJoinable => EndJoinable(e, at);
      case BlockingOperation => ReportTop(BlockedWhileHeld, e, at);
      case AcquireLock => AcquireLock(e, at);
      case ReleaseLock => ReleaseLock(e, at);
      case BeginJoin => BeginWait(e, at);
      case BeginCondition => BeginWait(e, at);
      case BeginWait => BeginWait(e, at);
      case EndJoin => EndWait(e, at);
      case EndWait => EndWait(e, at);
      case Ignored =>
    }

    /** The edges among the unfinished waits, and between waits and holds. */
    method CollectEdges() returns (joinEdges: seq<SyncEdge<Name>>, waitEdges: seq<SyncEdge<Name>>)
      ensures joinEdges == JoinEdges(State().waits)
      ensures waitEdges == WaitEdges(State().waits, State().holds)
    {
      joinEdges, waitEdges := [], [];
      var index := 0;
      while index < |waits|
        invariant index <= |waits|
        invariant joinEdges == JoinEdges(Active(waits[..index]))
        invariant waitEdges == WaitEdges(Active(waits[..index]), Active(held))
      {
        EdgesNext(waits, held, index);
        var slot := waits[index];
        if slot.active {
          if slot.item.join {
            joinEdges := joinEdges + [SyncEdge(slot.item.thread, slot.item.target)];
            waitEdges := waitEdges + [SyncEdge(slot.item.thread, slot.item.target)];
          } else {
            var more := CollectHolders(held, slot.item);
            waitEdges := waitEdges + more;
          }
        }
        index := index + 1;
      }
      assert waits[..index] == waits;
    }

    /** The cycle checks over the unfinished waits. */
    method Finish()
      modifies `findings
      ensures findings == FinishWaits(old(State()), |old(State()).waits|)
    {
      var joinEdges, waitEdges := CollectEdges();
      ghost var s := State();
      var index := 0;
      while index < |waits|
        invariant index <= |waits| && |Active(waits[..index])| <= |s.waits|
        invariant findings == FinishWaits(s, |Active(waits[..index])|)
      {
        ActiveIndex(waits, index);
        var slot := waits[index];
        if slot.active {
          var wait := slot.item;
          if wait.join {
            var cycle := SyncReaches(joinEdges, wait.target, wait.thread);
            if cycle {
              ReportOne(findings, JoinCycle, wait.thread, wait.target, wait.at);
              AddFinding(JoinCycle, wait.thread, wait.target, wait.at);
            }
          } else {
            var cycle, to := FindCyclingEdge(waitEdges, wait.thread);
            if cycle {
              ReportOne(findings, WaitCycle, wait.thread, to, wait.at);
              AddFinding(WaitCycle, wait.thread, to, wait.at);
            }
          }
        }
        index := index + 1;
      }
      assert waits[..index] == waits;
    }
  }

  lemma {:induction false} EdgesNext(waits: seq<SyncSlot>, held: seq<SyncSlot>, k: nat)
    requires k < |waits|
    ensures JoinEdges(Active(waits[..k + 1]))
            == JoinEdges(Active(waits[..k]))
               + (if waits[k].active && waits[k].item.join then [SyncEdge(waits[k].item.thread, waits[k].item.target)]
                  else [])
    ensures WaitEdges(Active(waits[..k + 1]), Active(held))
            == WaitEdges(Active(waits[..k]), Active(held))
               + (if !waits[k].active then []
                  else if waits[k].item.join then [SyncEdge(waits[k].item.thread, waits[k].item.target)]
                  else HolderEdges(Active(held), waits[k].item))
  {
    var items, item := Active(waits[..k]), waits[k].item;
    ActiveNext(waits, k);
    assert items + [] == items;
    assert (items + [item])[..|items|] == items;
  }

  lemma {:induction false} ActiveIndex(slots: seq<SyncSlot>, k: nat)
    requires k < |slots|
    ensures |Active(slots[..k + 1])| == |Active(slots[..k])| + (if slots[k].active then 1 else 0) <= |Active(slots)|
    ensures slots[k].active ==> Active(slots)[|Active(slots[..k])|] == slots[k].item
  {
    ActiveNext(slots, k);
    assert slots == slots[..k + 1] + slots[k + 1..];
    ActiveConcat(slots[..k + 1], slots[k + 1..]);
  }

  method CollectHolders(held: seq<SyncSlot>, wait: SyncItem) returns (edges: seq<SyncEdge<Name>>)
    ensures edges == HolderEdges(Active(held), wait)
  {
    edges := [];
    var index := 0;
    while index < |held|
      invariant index <= |held| && edges == HolderEdges(Active(held[..index]), wait)
    {
      ActiveNext(held, index);
      ghost var items := Active(held[..index]);
      assert (items + [held[index].item])[..|items|] == items && items + [] == items;
      if held[index].active && held[index].item.resource == wait.resource {
        edges := edges + [SyncEdge(wait.thread, held[index].item.thread)];
      }
      index := index + 1;
    }
    assert held[..index] == held;
  }

  method FindCyclingEdge(edges: seq<SyncEdge<Name>>, thread: Name) returns (found: bool, to: Name)
    ensures FirstCyclingEdge(edges, 0, thread) == if found then [(thread, to)] else []
  {
    found, to := false, NoName;
    var index := 0;
    while index < |edges| && !found
      invariant index <= |edges|
      invariant FirstCyclingEdge(edges, 0, thread)
                == if found then [(thread, to)] else FirstCyclingEdge(edges, index, thread)
      decreases |edges| - index, !found
    {
      if edges[index].from == thread {
        found := SyncReaches(edges, edges[index].to, thread);
        to := edges[index].to;
      }
      if !found {
        index := index + 1;
      }
    }
  }

  lemma {:induction false} RunNext(events: seq<SyncEvent>, k: nat)
    requires k < |events|
    ensures Run(events[..k + 1]) == Step(Run(events[..k]), events[k], k)
  {
    hide Step;
    assert events[..k + 1][..k] == events[..k];
  }

  lemma {:induction false} IgnoredNode(s: SyncState, node: Node, at: nat)
    ensures !IsSyncNode(node) ==> Step(s, EventOf(node), at) == s
  {}

  /** analyze_synchronization over an order of nodes. */
  method AnalyzeSynchronization(order: seq<Node>) returns (findings: seq<SyncFinding>)
    ensures findings == Analyze(EventsOf(order))
    ensures forall f :: f in findings <==> IsFinding(order, f)
    ensures Once(findings)
  {
    hide Step, EventOf, IsSyncNode, FinishWaits, IsFinding, Once;
    ghost var events := EventsOf(order);
    var analysis := new SyncAnalysis();
    var index := 0;
    while index < |order|
      invariant index <= |order| && analysis.State() == Run(events[..index])
    {
      RunNext(events, index);
      IgnoredNode(analysis.State(), order[index], index);
      if IsSyncNode(order[index]) {
        analysis.Observe(EventOf(order[index]), index);
      }
      index := index + 1;
    }
    assert events[..index] == events;
    analysis.Finish();
    findings := analysis.findings;
    forall f {
      FindingsExact(order, f);
    }
    AnalysisOnce(events);
  }
}
