/** Which event every finding stands for: the first that gives its rule and its
    two names, during the run or, for wait and join cycles, at its end. */
module SyncEvidence {
  import opened SyncPlaces
  import opened SyncReach
  import opened SyncSpec
  import opened SyncTheorems

  // ---------- One event ----------

  /** The pairs of names an event gives for a rule. */
  ghost function PairsOf(s: SyncState, e: SyncEvent, rule: SyncRule): seq<(Name, Name)> {
    var stack := Stack(s.holds, e.thread);
    match rule
    case BusyMutexDestroyed =>
      if e.op == DestroyMutex then HoldersOf(s.holds, e.resource) + WaitersOn(s.waits, e.resource) else []
    case ConsumedTwice => if e.op == AttemptTerminal then HoldersOf(s.terminated, e.resource) else []
    case BlockedWhileHeld => if e.op == BlockingOperation then TopOf(stack, e.resource) else []
    case LockOrderCycle =>
      if e.op == AcquireLock then ClosingLocks(EdgeSet(s.lockEdges), stack, e.resource) else []
    case ReleaseOrder => if e.op == ReleaseLock then TopMismatch(stack, e.resource) else []
    case JoinWhileHeld => if e.op == BeginJoin then TopOf(stack, e.resource) else []
    case ConditionMutexes => if e.op == BeginCondition then OtherMutexWaits(s.waits, e.resource, e.related) else []
    case _ => []
  }

  lemma {:induction false} ReportHas(fs: seq<SyncFinding>, rule: SyncRule, from: Name, to: Name, at: nat,
                                     f: SyncFinding)
    ensures f in Report(fs, rule, from, to, at)
            <==> f in fs || (f == SyncFinding(rule, from, to, at) && !Reported(fs, rule, from, to))
  {
    var g := SyncFinding(rule, from, to, at);
    assert forall x :: x in fs + [g] <==> x in fs || x == g;
  }

  lemma {:induction false} ReportEachHas(fs: seq<SyncFinding>, rule: SyncRule, pairs: seq<(Name, Name)>, at: nat,
                                         f: SyncFinding)
    ensures f in ReportEach(fs, rule, pairs, at)
            <==> f in fs || (f.rule == rule && f.at == at && (f.from, f.to) in pairs
                             && !Reported(fs, rule, f.from, f.to))
  {
    hide Reported, Report;
    if pairs != [] {
      var n := |pairs| - 1;
      var init, last := pairs[..n], pairs[n];
      ReportEachHas(fs, rule, init, at, f);
      ReportHas(ReportEach(fs, rule, init, at), rule, last.0, last.1, at, f);
      ReportEachEvidence(fs, rule, init, at, rule, f.from, f.to);
      assert pairs == init + [last];
      assert last == (last.0, last.1);
    }
  }

  predicate Silent(e: SyncEvent) {
    e.op == EndJoinable || e.op == BeginWait || e.op == EndJoin || e.op == EndWait || e.op == Ignored
  }

  /** The rule an event may break. */
  function RuleOf(e: SyncEvent): SyncRule {
    match e.op
    case DestroyMutex => BusyMutexDestroyed
    case AttemptTerminal => ConsumedTwice
    case BlockingOperation => BlockedWhileHeld
    case AcquireLock => LockOrderCycle
    case ReleaseLock => ReleaseOrder
    case BeginJoin => JoinWhileHeld
    case _ => ConditionMutexes
  }

  lemma {:induction false} StepReports(s: SyncState, e: SyncEvent, at: nat)
    ensures Silent(e) ==> Step(s, e, at).findings == s.findings && forall r :: PairsOf(s, e, r) == []
    ensures !Silent(e) ==>
              Step(s, e, at).findings == ReportEach(s.findings, RuleOf(e), PairsOf(s, e, RuleOf(e)), at)
              && forall r :: r != RuleOf(e) ==> PairsOf(s, e, r) == []
  {
    hide ReportEach, RemoveLastMatch, HoldersOf, WaitersOn, ClosingLocks, OtherMutexWaits, TopOf, TopMismatch, Stack,
         NewLockEdges, EdgeSet;
  }

  lemma {:induction false} StepHas(s: SyncState, e: SyncEvent, at: nat, f: SyncFinding)
    ensures f in Step(s, e, at).findings
            <==> f in s.findings || (f.at == at && (f.from, f.to) in PairsOf(s, e, f.rule)
                                     && !Reported(s.findings, f.rule, f.from, f.to))
    ensures Reported(Step(s, e, at).findings, f.rule, f.from, f.to)
            <==> Reported(s.findings, f.rule, f.from, f.to) || (f.from, f.to) in PairsOf(s, e, f.rule)
  {
    hide ReportEach, Reported, Step, PairsOf;
    StepReports(s, e, at);
    if !Silent(e) {
      ReportEachHas(s.findings, RuleOf(e), PairsOf(s, e, RuleOf(e)), at, f);
      ReportEachEvidence(s.findings, RuleOf(e), PairsOf(s, e, RuleOf(e)), at, f.rule, f.from, f.to);
    }
  }

  // ---------- The run ----------

  /** Event i gives the names for the rule. */
  ghost predicate Gives(events: seq<SyncEvent>, i: nat, rule: SyncRule, from: Name, to: Name) {
    i < |events| && (from, to) in PairsOf(Run(events[..i]), events[i], rule)
  }

  ghost predicate FirstGives(events: seq<SyncEvent>, i: nat, rule: SyncRule, from: Name, to: Name) {
    Gives(events, i, rule, from, to) && forall j: nat :: j < i ==> !Gives(events, j, rule, from, to)
  }

  ghost predicate EverGives(events: seq<SyncEvent>, rule: SyncRule, from: Name, to: Name) {
    exists i: nat :: Gives(events, i, rule, from, to)
  }

  lemma {:induction false} GivesEarlier(events: seq<SyncEvent>, e: SyncEvent, i: nat, rule: SyncRule, from: Name,
                                        to: Name)
    requires i < |events|
    ensures Gives(events + [e], i, rule, from, to) <==> Gives(events, i, rule, from, to)
  {
    assert (events + [e])[..i] == events[..i] && (events + [e])[i] == events[i];
  }

  lemma {:induction false} GivesLast(events: seq<SyncEvent>, e: SyncEvent, rule: SyncRule, from: Name, to: Name)
    ensures Gives(events + [e], |events|, rule, from, to) <==> (from, to) in PairsOf(Run(events), e, rule)
  {
    assert (events + [e])[..|events|] == events && (events + [e])[|events|] == e;
  }

  lemma {:induction false} RunHas(events: seq<SyncEvent>, f: SyncFinding)
    ensures f in Run(events).findings <==> FirstGives(events, f.at, f.rule, f.from, f.to)
    ensures Reported(Run(events).findings, f.rule, f.from, f.to) <==> EverGives(events, f.rule, f.from, f.to)
  {
    hide Step, Reported, PairsOf, Gives;
    if events == [] {
      NothingGiven(f);
    } else {
      var n := |events| - 1;
      var init, e := events[..n], events[n];
      assert init + [e] == events;
      RunHas(init, f);
      StepHas(Run(init), e, n, f);
      GivesLast(init, e, f.rule, f.from, f.to);
      forall i: nat
        ensures Gives(events, i, f.rule, f.from, f.to)
                <==> (i < n && Gives(init, i, f.rule, f.from, f.to))
                     || (i == n && (f.from, f.to) in PairsOf(Run(init), e, f.rule))
      {
        GivesInRange(events, i, f.rule, f.from, f.to);
        if i < n {
          GivesEarlier(init, e, i, f.rule, f.from, f.to);
        }
      }
      forall i: nat | Gives(init, i, f.rule, f.from, f.to)
        ensures i < n
      {
        GivesInRange(init, i, f.rule, f.from, f.to);
      }
      RunStep(events, n);
    }
  }

  lemma {:induction false} RunStep(events: seq<SyncEvent>, n: nat)
    requires n + 1 == |events|
    ensures Run(events) == Step(Run(events[..n]), events[n], n)
  {}

  lemma {:induction false} GivesInRange(events: seq<SyncEvent>, i: nat, rule: SyncRule, from: Name, to: Name)
    ensures Gives(events, i, rule, from, to) ==> i < |events|
  {}

  lemma {:induction false} NothingGiven(f: SyncFinding)
    ensures f !in Run([]).findings && !Reported(Run([]).findings, f.rule, f.from, f.to)
    ensures !EverGives([], f.rule, f.from, f.to) && !FirstGives([], f.at, f.rule, f.from, f.to)
  {}

  // ---------- The end of the run ----------

  /** The pairs an unfinished wait gives at the end. */
  ghost function PairsAtEnd(s: SyncState, w: SyncItem, rule: SyncRule): seq<(Name, Name)> {
    if w.join && rule == JoinCycle then JoinPairs(JoinEdges(s.waits), w)
    else if !w.join && rule == WaitCycle then FirstCyclingEdge(WaitEdges(s.waits, s.holds), 0, w.thread)
    else []
  }

  ghost predicate FinishesWith(s: SyncState, k: nat, f: SyncFinding) {
    k < |s.waits| && f.at == s.waits[k].at && (f.from, f.to) in PairsAtEnd(s, s.waits[k], f.rule)
    && forall j :: 0 <= j < k ==> (f.from, f.to) !in PairsAtEnd(s, s.waits[j], f.rule)
  }

  ghost predicate EndsWith(s: SyncState, n: nat, rule: SyncRule, from: Name, to: Name) {
    exists k: nat :: k < n && k < |s.waits| && (from, to) in PairsAtEnd(s, s.waits[k], rule)
  }

  ghost predicate FinishedBefore(s: SyncState, n: nat, f: SyncFinding) {
    exists k: nat :: k < n && FinishesWith(s, k, f)
  }

  lemma {:induction false} WaitReports(s: SyncState, k: nat)
    requires k < |s.waits|
    ensures var rule := if s.waits[k].join then JoinCycle else WaitCycle;
            FinishWaits(s, k + 1)
            == ReportEach(FinishWaits(s, k), rule, PairsAtEnd(s, s.waits[k], rule), s.waits[k].at)
            && forall r :: r != rule ==> PairsAtEnd(s, s.waits[k], r) == []
  {
    hide ReportEach, JoinPairs, FirstCyclingEdge, JoinEdges, WaitEdges;
  }

  lemma {:induction false} FinishHas(s: SyncState, n: nat, f: SyncFinding)
    requires n <= |s.waits| && !Reported(s.findings, f.rule, f.from, f.to)
    ensures f in FinishWaits(s, n) <==> FinishedBefore(s, n, f)
    ensures Reported(FinishWaits(s, n), f.rule, f.from, f.to) <==> EndsWith(s, n, f.rule, f.from, f.to)
  {
    hide ReportEach, PairsAtEnd, Reported, FinishWaits, FinishesWith;
    if n == 0 {
      NothingFinished(s);
      NotAmong(s.findings, f);
    } else {
      var k := n - 1;
      FinishHas(s, k, f);
      WaitReports(s, k);
      var rule := if s.waits[k].join then JoinCycle else WaitCycle;
      var pairs := PairsAtEnd(s, s.waits[k], rule);
      ReportEachHas(FinishWaits(s, k), rule, pairs, s.waits[k].at, f);
      ReportEachEvidence(FinishWaits(s, k), rule, pairs, s.waits[k].at, f.rule, f.from, f.to);
      FinishNext(s, k, f);
    }
  }

  lemma {:induction false} NotAmong(fs: seq<SyncFinding>, f: SyncFinding)
    requires !Reported(fs, f.rule, f.from, f.to)
    ensures f !in fs
  {
    assert SameFinding(f, f.rule, f.from, f.to);
  }

  lemma {:induction false} FinishNext(s: SyncState, k: nat, f: SyncFinding)
    requires k < |s.waits|
    ensures FinishedBefore(s, k + 1, f)
            <==> FinishedBefore(s, k, f)
                 || (f.at == s.waits[k].at && (f.from, f.to) in PairsAtEnd(s, s.waits[k], f.rule)
                     && !EndsWith(s, k, f.rule, f.from, f.to))
    ensures EndsWith(s, k + 1, f.rule, f.from, f.to)
            <==> EndsWith(s, k, f.rule, f.from, f.to) || (f.from, f.to) in PairsAtEnd(s, s.waits[k], f.rule)
  {
    hide PairsAtEnd;
    var last := f.at == s.waits[k].at && (f.from, f.to) in PairsAtEnd(s, s.waits[k], f.rule)
                && !EndsWith(s, k, f.rule, f.from, f.to);
    assert FinishesWith(s, k, f) <==> last;
    if last {
      assert FinishedBefore(s, k + 1, f);
    }
    if j: nat :| j < k && FinishesWith(s, j, f) {
      assert FinishedBefore(s, k + 1, f);
    }
  }

  /** The wait begun at event i gives the names at the end. */
  ghost predicate GivesAtEnd(events: seq<SyncEvent>, i: nat, rule: SyncRule, from: Name, to: Name) {
    Waiting(events, i) && i < |events| && (from, to) in PairsAtEnd(Run(events), WaitItem(events[i], i), rule)
  }

  ghost predicate FirstGivesAtEnd(events: seq<SyncEvent>, i: nat, rule: SyncRule, from: Name, to: Name) {
    GivesAtEnd(events, i, rule, from, to) && forall j: nat :: j < i ==> !GivesAtEnd(events, j, rule, from, to)
  }

  predicate OfEnd(rule: SyncRule) {
    rule == WaitCycle || rule == JoinCycle
  }

  lemma {:induction false} WaitAt(events: seq<SyncEvent>, k: nat)
    requires k < |Run(events).waits|
    ensures var w := Run(events).waits[k]; Waiting(events, w.at) && w.at < |events| && w == WaitItem(events[w.at], w.at)
  {
    hide Run, Waiting, WaitItem;
    WaitsAreWaiting(events, Run(events).waits[k]);
  }

  lemma {:induction false} IndexOfWait(events: seq<SyncEvent>, i: nat) returns (k: nat)
    requires Waiting(events, i) && i < |events|
    ensures k < |Run(events).waits| && Run(events).waits[k] == WaitItem(events[i], i)
  {
    hide Run, WaitPlaces;
    var w := WaitItem(events[i], i);
    WaitsAreWaiting(events, w);
    k :| 0 <= k < |Run(events).waits| && Run(events).waits[k] == w;
  }

  lemma {:induction false} FinishedIsFirst(events: seq<SyncEvent>, f: SyncFinding)
    ensures FinishedBefore(Run(events), |Run(events).waits|, f)
            <==> FirstGivesAtEnd(events, f.at, f.rule, f.from, f.to)
  {
    hide Run, Waiting, WaitItem, PairsAtEnd, IsHeldItem, IsWaitItem;
    var s := Run(events);
    TablesStayOk(events);
    if k: nat :| k < |s.waits| && FinishesWith(s, k, f) {
      WaitAt(events, k);
      forall j: nat | j < f.at
        ensures !GivesAtEnd(events, j, f.rule, f.from, f.to)
      {
        if GivesAtEnd(events, j, f.rule, f.from, f.to) {
          var l := IndexOfWait(events, j);
          WaitAt(events, l);
          PlaceOfWait(events, j);
        }
      }
    }
    if FirstGivesAtEnd(events, f.at, f.rule, f.from, f.to) {
      var k := IndexOfWait(events, f.at);
      PlaceOfWait(events, f.at);
      forall j | 0 <= j < k
        ensures (f.from, f.to) !in PairsAtEnd(s, s.waits[j], f.rule)
      {
        WaitAt(events, j);
        assert s.waits[j].at < s.waits[k].at;
        assert !GivesAtEnd(events, s.waits[j].at, f.rule, f.from, f.to);
      }
      assert FinishesWith(s, k, f);
    }
  }

  lemma {:induction false} PlaceOfWait(events: seq<SyncEvent>, i: nat)
    requires i < |events|
    ensures WaitItem(events[i], i).at == i
  {}

  lemma {:induction false} FinishKeeps(s: SyncState, n: nat, f: SyncFinding)
    requires n <= |s.waits| && !OfEnd(f.rule)
    ensures f in FinishWaits(s, n) <==> f in s.findings
  {
    hide ReportEach, PairsAtEnd, FinishWaits;
    if n == 0 {
      NothingFinished(s);
    } else {
      FinishKeeps(s, n - 1, f);
      WaitReports(s, n - 1);
      var rule := if s.waits[n - 1].join then JoinCycle else WaitCycle;
      ReportEachHas(FinishWaits(s, n - 1), rule, PairsAtEnd(s, s.waits[n - 1], rule), s.waits[n - 1].at, f);
    }
  }

  lemma {:induction false} NothingFinished(s: SyncState)
    ensures FinishWaits(s, 0) == s.findings
  {}

  /** Every finding stands for the first event that gives its names. */
  lemma {:induction false} AnalysisHas(events: seq<SyncEvent>, f: SyncFinding)
    ensures f in Analyze(events)
            <==> if OfEnd(f.rule) then FirstGivesAtEnd(events, f.at, f.rule, f.from, f.to)
                 else FirstGives(events, f.at, f.rule, f.from, f.to)
  {
    hide Run, FirstGives, FirstGivesAtEnd, FinishWaits, FinishedBefore, EndsWith, Gives;
    var s := Run(events);
    RunHas(events, f);
    if OfEnd(f.rule) {
      NoGivesOfEnd(events, f.rule, f.from, f.to);
      FinishHas(s, |s.waits|, f);
      FinishedIsFirst(events, f);
    } else {
      FinishKeeps(s, |s.waits|, f);
    }
  }

  lemma {:induction false} NoGivesOfEnd(events: seq<SyncEvent>, rule: SyncRule, from: Name, to: Name)
    requires OfEnd(rule)
    ensures !EverGives(events, rule, from, to)
  {}

  // ---------- Every finding once ----------

  /** No two findings have the same rule and names. */
  ghost predicate Once(fs: seq<SyncFinding>) {
    forall i, j :: 0 <= i < j < |fs| ==> !SameFinding(fs[i], fs[j].rule, fs[j].from, fs[j].to)
  }

  lemma {:induction false} ReportOnce(fs: seq<SyncFinding>, rule: SyncRule, from: Name, to: Name, at: nat)
    requires Once(fs)
    ensures Once(Report(fs, rule, from, to, at))
  {
    assert forall i :: 0 <= i < |fs| ==> fs[i] in fs;
  }

  lemma {:induction false} ReportEachOnce(fs: seq<SyncFinding>, rule: SyncRule, pairs: seq<(Name, Name)>, at: nat)
    requires Once(fs)
    ensures Once(ReportEach(fs, rule, pairs, at))
  {
    hide Once, Report;
    if pairs != [] {
      var n := |pairs| - 1;
      ReportEachOnce(fs, rule, pairs[..n], at);
      ReportOnce(ReportEach(fs, rule, pairs[..n], at), rule, pairs[n].0, pairs[n].1, at);
    }
  }

  lemma {:induction false} RunOnce(events: seq<SyncEvent>)
    ensures Once(Run(events).findings)
  {
    hide Step, PairsOf, Once, ReportEach;
    if events == [] {
      assert Once(Run([]).findings) by { NothingTwice(); }
    } else {
      var n := |events| - 1;
      RunOnce(events[..n]);
      StepReports(Run(events[..n]), events[n], n);
      ReportEachOnce(Run(events[..n]).findings, RuleOf(events[n]),
                     PairsOf(Run(events[..n]), events[n], RuleOf(events[n])), n);
    }
  }

  lemma {:induction false} NothingTwice()
    ensures Once(Run([]).findings)
  {}

  lemma {:induction false} FinishOnce(s: SyncState, n: nat)
    requires n <= |s.waits| && Once(s.findings)
    ensures Once(FinishWaits(s, n))
  {
    hide PairsAtEnd, Once, ReportEach, FinishWaits;
    if n == 0 {
      NothingFinished(s);
    } else {
      FinishOnce(s, n - 1);
      WaitReports(s, n - 1);
      var rule := if s.waits[n - 1].join then JoinCycle else WaitCycle;
      ReportEachOnce(FinishWaits(s, n - 1), rule, PairsAtEnd(s, s.waits[n - 1], rule), s.waits[n - 1].at);
    }
  }

  /** The analysis reports every rule with the same names once. */
  lemma {:induction false} AnalysisOnce(events: seq<SyncEvent>)
    ensures Once(Analyze(events))
  {
    hide Run, FinishWaits, Once;
    RunOnce(events);
    FinishOnce(Run(events), |Run(events).waits|);
  }
}
