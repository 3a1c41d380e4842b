/** The lifecycle model as an object: its two growing tables, their limits, and
    the loops that search, repair and compact them. */
module Lifecycle {
  import opened Events
  import opened Wrappers
  import opened LifecycleCopies
  import opened LifecycleSpec

  const LOG_VERSION := 5
  const MAX_ENTRIES := 1048576
  const MAX_FINDINGS := 1048576

  predicate Fits(m: Model) {
    |m.entries| <= MAX_ENTRIES && |m.findings| <= MAX_FINDINGS
  }

  // ---------- Facts about reconciliation ----------

  lemma {:induction false} FirstStray(findings: seq<Finding>, i: nat, key: Key)
    requires i < |findings| && IsStray(findings[i], key)
    requires forall k :: 0 <= k < i ==> !IsStray(findings[k], key)
    ensures Strays(findings, key) == [findings[i]] + Strays(findings[..i] + findings[i + 1..], key)
    ensures Rest(findings, key) == Rest(findings[..i] + findings[i + 1..], key)
  {
    var n := |findings| - 1;
    if i == n {
      LastStray(findings, key);
    } else {
      FirstStray(findings[..n], i, key);
      var without := findings[..n][..i] + findings[..n][i + 1..];
      assert (findings[..i] + findings[i + 1..])[..n - 1] == without;
    }
  }

  lemma {:induction false} LastStray(findings: seq<Finding>, key: Key)
    requires findings != [] && IsStray(findings[|findings| - 1], key)
    requires forall k :: 0 <= k < |findings| - 1 ==> !IsStray(findings[k], key)
    ensures var n := |findings| - 1;
            Strays(findings, key) == [findings[n]] + Strays(findings[..n] + findings[n + 1..], key)
            && Rest(findings, key) == Rest(findings[..n] + findings[n + 1..], key)
  {
    var n := |findings| - 1;
    NoStrays(findings[..n], key);
    assert findings[..n] + findings[n + 1..] == findings[..n];
    assert Rest(findings[..n], key) + [] == Rest(findings[..n], key);
  }

  lemma {:induction false} NoStrays(findings: seq<Finding>, key: Key)
    requires forall k :: 0 <= k < |findings| ==> !IsStray(findings[k], key)
    ensures Strays(findings, key) == [] && Rest(findings, key) == findings
  {
    if findings != [] {
      NoStrays(findings[..|findings| - 1], key);
    }
  }

  lemma {:induction false} ReleaseAllHead(m: Model, f: Finding, strays: seq<Finding>)
    ensures ReleaseAll(m, [f] + strays) == ReleaseAll(ReleaseEntry(m, f.key, f.origin, f.site), strays)
  {
    hide ReleaseEntry;
    var all := [f] + strays;
    if strays == [] {
      assert all[..0] == [];
    } else {
      var n := |strays| - 1;
      assert all[..|all| - 1] == [f] + strays[..n];
      ReleaseAllHead(m, f, strays[..n]);
    }
  }

  /** One round of reconciliation: the oldest stray release leaves the findings
      and is replayed; it never comes back as a stray. */
  lemma {:induction false} ReconcileRound(m: Model, i: nat, key: Key)
    requires i < |m.findings| && IsStray(m.findings[i], key) && FindLatest(m.entries, key, false) >= 0
    requires forall k :: 0 <= k < i ==> !IsStray(m.findings[k], key)
    ensures var f, taken := m.findings[i], m.(findings := m.findings[..i] + m.findings[i + 1..]);
            var round := ReleaseEntry(taken, key, f.origin, f.site);
            Reconcile(round, key) == Reconcile(m, key)
            && |Strays(round.findings, key)| < |Strays(m.findings, key)|
            && |round.findings| <= |m.findings| && |round.entries| == |m.entries|
            && FindLatest(round.entries, key, false) >= 0
  {
    var f, taken := m.findings[i], m.(findings := m.findings[..i] + m.findings[i + 1..]);
    var round := ReleaseEntry(taken, key, f.origin, f.site);
    FirstStray(m.findings, i, key);
    var quiet := m.(findings := Rest(m.findings, key));
    ReleaseAllHead(quiet, f, Strays(taken.findings, key));
    var live := FindLatest(m.entries, key, true);
    if live >= 0 {
      StillThere(m.entries, live, f.site, key);
    } else {
      var d := NewFinding(taken, DoubleRelease, key, f.origin, f.site, FindLatest(m.entries, key, false));
      assert (taken.findings + [d])[..|taken.findings|] == taken.findings;
      assert Strays(taken.findings, key) + [] == Strays(taken.findings, key);
    }
  }

  lemma {:induction false} StillThere(entries: seq<Entry>, i: nat, site: Site, key: Key)
    requires i < |entries|
    ensures FindLatest(entries[i := entries[i].(live := false, released := Some(site))], key, false)
            == FindLatest(entries, key, false)
  {
    var n := |entries| - 1;
    var after := entries[i := entries[i].(live := false, released := Some(site))];
    if i < n {
      StillThere(entries[..n], i, site, key);
      assert after[..n] == entries[..n][i := entries[i].(live := false, released := Some(site))];
    } else {
      assert after[..n] == entries[..n];
    }
  }

  lemma {:induction false} ReleaseAllBounds(m: Model, strays: seq<Finding>, key: Key)
    ensures |ReleaseAll(m, strays).findings| <= |m.findings| + |strays|
    ensures |ReleaseAll(m, strays).entries| == |m.entries|
  {
    if strays != [] {
      ReleaseAllBounds(m, strays[..|strays| - 1], key);
    }
  }

  lemma {:induction false} SplitSizes(findings: seq<Finding>, key: Key)
    ensures |Rest(findings, key)| + |Strays(findings, key)| == |findings|
  {
    if findings != [] {
      SplitSizes(findings[..|findings| - 1], key);
    }
  }

  /** Reconciliation never lengthens a table. */
  lemma {:induction false} ReconcileBounds(m: Model, key: Key)
    ensures |Reconcile(m, key).findings| <= |m.findings| && |Reconcile(m, key).entries| == |m.entries|
  {
    SplitSizes(m.findings, key);
    ReleaseAllBounds(m.(findings := Rest(m.findings, key)), Strays(m.findings, key), key);
  }

  // ---------- What a fork may refuse ----------

  /** Every inherited identifier fits the copy's buffer. */
  ghost predicate NamesFit(m: Model, n: nat, parent: int, child: int, site: Site)
    requires n <= |m.entries|
  {
    forall i :: 0 <= i < n ==> NameFits(ForkFirst(m, i, parent, child, site), i, parent, child)
  }

  /** The identifier of entry i fits, if the entry is inherited. */
  predicate NameFits(m: Model, i: nat, parent: int, child: int)
    requires i < |m.entries|
  {
    Inherits(m, i, parent, child) ==> |m.entries[i].key.id| <= IDENTIFIER_LIMIT
  }

  lemma {:induction false} NamesFitNext(m: Model, n: nat, parent: int, child: int, site: Site)
    requires n < |m.entries|
    ensures NamesFit(m, n + 1, parent, child, site)
            <==> NamesFit(m, n, parent, child, site) && NameFits(ForkFirst(m, n, parent, child, site), n, parent, child)
  {}

  /** A turn that is refused refuses the whole fork. */
  lemma {:induction false} RefusedTurn(m: Model, i: nat, parent: int, child: int, site: Site)
    requires i < |m.entries|
    requires !(NameFits(ForkFirst(m, i, parent, child, site), i, parent, child)
               && Fits(ForkFirst(m, i + 1, parent, child, site)))
    requires |m.findings| <= MAX_FINDINGS
    ensures !(NamesFit(m, |m.entries|, parent, child, site) && Fits(ForkFirst(m, |m.entries|, parent, child, site)))
  {
    if NameFits(ForkFirst(m, i, parent, child, site), i, parent, child) {
      OverfullTurn(m, i + 1, parent, child, site);
    }
  }

  lemma {:induction false} OverfullTurn(m: Model, n: nat, parent: int, child: int, site: Site)
    requires n <= |m.entries| && |m.findings| <= MAX_FINDINGS && !Fits(ForkFirst(m, n, parent, child, site))
    ensures !Fits(ForkFirst(m, |m.entries|, parent, child, site))
  {
    ForkAddsNoFinding(m, n, parent, child, site);
    ForkGrows(m, n, |m.entries|, parent, child, site);
  }

  /** Turn i is the first that is refused. */
  ghost predicate RefusedAt(m: Model, i: nat, parent: int, child: int, site: Site) {
    i < |m.entries| && NamesFit(m, i, parent, child, site) && Fits(ForkFirst(m, i, parent, child, site))
    && !(NameFits(ForkFirst(m, i, parent, child, site), i, parent, child)
         && Fits(ForkFirst(m, i + 1, parent, child, site)))
  }

  ghost predicate Replayable(m: Model, r: LogRecord) {
    WellFormed(r)
    && (r.body.ForkBody? && r.pid >= 0 && r.body.child >= 0 && r.pid != r.body.child ==>
          NamesFit(m, |m.entries|, r.pid, r.body.child, SiteOf(r)))
  }

  lemma {:induction false} ForkTurn(m: Model, n: nat, parent: int, child: int, site: Site)
    requires n < |m.entries|
    ensures var before, after := ForkFirst(m, n, parent, child, site), ForkFirst(m, n + 1, parent, child, site);
            |before.entries| <= |after.entries| && |after.findings| <= |before.findings|
  {
    ForkStepBounds(ForkFirst(m, n, parent, child, site), n, parent, child, site);
  }

  lemma {:induction false} ForkGrows(m: Model, i: nat, n: nat, parent: int, child: int, site: Site)
    requires i <= n <= |m.entries|
    ensures |ForkFirst(m, i, parent, child, site).entries| <= |ForkFirst(m, n, parent, child, site).entries|
    decreases n - i
  {
    hide ForkStep;
    if i < n {
      ForkTurn(m, i, parent, child, site);
      ForkGrows(m, i + 1, n, parent, child, site);
    }
  }

  lemma {:induction false} ForkAddsNoFinding(m: Model, n: nat, parent: int, child: int, site: Site)
    requires n <= |m.entries|
    ensures |ForkFirst(m, n, parent, child, site).findings| <= |m.findings|
  {
    hide ForkStep;
    if n > 0 {
      ForkAddsNoFinding(m, n - 1, parent, child, site);
      ForkTurn(m, n - 1, parent, child, site);
    }
  }

  lemma {:induction false} ForkStepBounds(m: Model, i: nat, parent: int, child: int, site: Site)
    requires i < |m.entries|
    ensures var after := ForkStep(m, i, parent, child, site);
            |after.entries| == |m.entries| + (if Inherits(m, i, parent, child) then 1 else 0)
              && |after.findings| <= |m.findings|
  {
    var e := m.entries[i];
    var key := e.key.(pid := child);
    ReconcileBounds(AddEntry(m, key, e.origin, e.size, site), key);
  }

  // ---------- What a refused record leaves behind ----------

  /** The steps before the one that meets a limit have been made. */
  function AcquireStopped(m: Model, key: Key, origin: RecordKind, site: Site): Model {
    var live := FindLatest(m.entries, key, true);
    if live >= 0 && |m.findings| < MAX_FINDINGS then AddFinding(m, DuplicateAcquire, key, origin, site, live) else m
  }

  function ReplaceStopped(m: Model, key: Key, related: Option<string>, origin: RecordKind, site: Site): Model {
    if related != None && related != Some("") && Fits(ReleaseEntry(m, key, origin, site)) then
      ReleaseEntry(m, key, origin, site)
    else m
  }

  function ResourceStopped(m: Model, key: Key, op: ResourceKind, related: Option<string>, origin: RecordKind,
                           site: Site): Model {
    match op
    case Acquire => AcquireStopped(m, key, origin, site)
    case Release => m
    case Use => m
    case _ => ReplaceStopped(m, key, related, origin, site)
  }

  function MoveStopped(m: Model, key: Key, newKey: Key, site: Site): Model {
    if Fits(LeaveBlock(m, key, site)) then AcquireStopped(LeaveBlock(m, key, site), newKey, AllocRecord, site) else m
  }

  function AllocationStopped(m: Model, pid: int, kind: AllocKind, ptr: Option<string>, newPtr: Option<string>,
                             site: Site): Model {
    var key := Key(pid, ALLOCATION_CLASS, if ptr.Some? then ptr.value else "");
    var newKey := Key(pid, ALLOCATION_CLASS, if newPtr.Some? then newPtr.value else "");
    match kind
    case Alloc => AcquireStopped(m, key, AllocRecord, site)
    case Free => m
    case Realloc =>
      if ptr.None? then AcquireStopped(m, newKey, AllocRecord, site)
      else if newPtr.None? then m
      else MoveStopped(m, key, newKey, site)
  }

  ghost predicate ForkStopped(m: Model, after: Model, parent: int, child: int, site: Site) {
    exists i: nat :: RefusedAt(m, i, parent, child, site) && after == ForkFirst(m, i, parent, child, site)
  }

  /** The first k entries are no longer provisional, the others are as before. */
  ghost predicate SettledTo(before: seq<Entry>, after: seq<Entry>, k: nat) {
    |after| == |before| && forall i :: 0 <= i < |before| ==> SettledAt(before, after, k, i)
  }

  ghost predicate SettledAt(before: seq<Entry>, after: seq<Entry>, k: nat, i: nat)
    requires i < |before| == |after|
  {
    after[i] == if i < k then before[i].(pending := false) else before[i]
  }

  /** The finding table is full when entry k would have to be reported as a leak. */
  ghost predicate StoppedAtEntry(m: Model, after: Model, k: nat) {
    k < |m.entries| && m.entries[k].live && |after.findings| == MAX_FINDINGS
    && after.findings == m.findings + Leaks(m.entries[..k]) && SettledTo(m.entries, after.entries, k + 1)
  }

  ghost predicate LeaksStopped(m: Model, after: Model) {
    exists k: nat :: StoppedAtEntry(m, after, k)
  }

  ghost predicate Stopped(m: Model, after: Model, r: LogRecord) {
    match r.body
    case ResourceBody(op, cls, id, related) =>
      after == if cls.Some? && id.Some? then
                 ResourceStopped(m, Key(r.pid, cls.value, id.value), op, related, ResourceRecord, SiteOf(r))
               else m
    case FdBody(kind, fd) =>
      after == if kind == Open then AcquireStopped(m, FdKey(r.pid, fd), FdRecord, SiteOf(r)) else m
    case AllocBody(kind, ptr, newPtr) => after == AllocationStopped(m, r.pid, kind, ptr, newPtr, SiteOf(r))
    case ForkBody(child) => ForkStopped(m, after, r.pid, child, SiteOf(r))
    case _ => after == m
  }

  /** `after` is `before` without its first stray release of the key, if any. */
  ghost predicate StrayTaken(before: seq<Finding>, after: seq<Finding>, key: Key, found: bool, stray: Finding,
                             index: nat) {
    if found then
      index < |before| && stray == before[index] && IsStray(stray, key)
      && (forall k :: 0 <= k < index ==> !IsStray(before[k], key))
      && after == before[..index] + before[index + 1..]
    else
      after == before && forall k :: 0 <= k < |before| ==> !IsStray(before[k], key)
  }

  lemma {:induction false} StrayRound(before: Model, findings: seq<Finding>, key: Key, stray: Finding, index: nat)
    requires StrayTaken(before.findings, findings, key, true, stray, index)
             && FindLatest(before.entries, key, false) >= 0
    ensures var round := ReleaseEntry(before.(findings := findings), key, stray.origin, stray.site);
            Reconcile(round, key) == Reconcile(before, key)
            && |Strays(round.findings, key)| < |Strays(before.findings, key)|
            && |round.findings| <= |before.findings| && |round.entries| == |before.entries|
            && FindLatest(round.entries, key, false) >= 0
  {
    ReconcileRound(before, index, key);
  }

  lemma {:induction false} NoRoundLeft(before: Model, findings: seq<Finding>, key: Key, stray: Finding, index: nat)
    requires StrayTaken(before.findings, findings, key, false, stray, index)
    ensures Reconcile(before, key) == before && findings == before.findings
  {
    NoStrays(findings, key);
  }

  // ---------- The object ----------

  class LifecycleModel {
    /** P101_TOOL_EVENT_RUN_ID_MAX_BYTES, defined by the record library. */
    const runIdLimit: nat
    var runId: string
    var entries: seq<Entry>
    var findings: seq<Finding>
    var finished: bool

    ghost function State(): Model
      reads this
    {
      Model(entries, findings)
    }

    constructor (limit: nat)
      ensures State() == EMPTY && runId == "" && !finished && runIdLimit == limit
    {
      runIdLimit, runId, entries, findings, finished := limit, "", [], [], false;
    }

    method Latest(key: Key, liveOnly: bool) returns (index: int)
      ensures index == FindLatest(entries, key, liveOnly)
    {
      var k := |entries|;
      assert entries[..k] == entries;
      while k > 0 && !(entries[k - 1].key == key && (!liveOnly || entries[k - 1].live))
        invariant 0 <= k <= |entries| && FindLatest(entries[..k], key, liveOnly) == FindLatest(entries, key, liveOnly)
      {
        assert entries[..k][..k - 1] == entries[..k - 1];
        k := k - 1;
      }
      index := k - 1;
    }

    method PushEntry(key: Key, origin: RecordKind, size: nat, site: Site) returns (ok: bool)
      modifies `entries
      ensures ok <==> |old(entries)| < MAX_ENTRIES
      ensures State() == if ok then AddEntry(old(State()), key, origin, size, site) else old(State())
    {
      ok := |entries| < MAX_ENTRIES;
      if ok {
        entries := entries + [Entry(key, origin, size, site, None, true, false)];
      }
    }

    method PushFinding(kind: FindingKind, key: Key, origin: RecordKind, site: Site, index: int) returns (ok: bool)
      requires -1 <= index < |entries|
      modifies `findings
      ensures ok <==> |old(findings)| < MAX_FINDINGS
      ensures State() == if ok then AddFinding(old(State()), kind, key, origin, site, index) else old(State())
    {
      ok := |findings| < MAX_FINDINGS;
      if ok {
        findings := findings + [NewFinding(Model(entries, findings), kind, key, origin, site, index)];
      }
    }

    method Release(key: Key, origin: RecordKind, site: Site) returns (ok: bool)
      requires Fits(State())
      modifies `entries, `findings
      ensures ok <==> Fits(ReleaseEntry(old(State()), key, origin, site))
      ensures State() == if ok then ReleaseEntry(old(State()), key, origin, site) else old(State())
    {
      var live := Latest(key, true);
      if live >= 0 {
        entries := entries[live := entries[live].(live := false, released := Some(site))];
        ok := true;
      } else {
        var any := Latest(key, false);
        ok := PushFinding(if any < 0 then StrayRelease else DoubleRelease, key, origin, site, any);
      }
    }

    method Acquire(key: Key, origin: RecordKind, size: nat, site: Site) returns (ok: bool)
      requires Fits(State())
      modifies `entries, `findings
      ensures ok <==> Fits(AcquireEntry(old(State()), key, origin, size, site))
      ensures State() == if ok then AcquireEntry(old(State()), key, origin, size, site)
                         else AcquireStopped(old(State()), key, origin, site)
      ensures Fits(State())
    {
      var live := Latest(key, true);
      ok := true;
      if live >= 0 {
        ok := PushFinding(DuplicateAcquire, key, origin, site, live);
      }
      if ok {
        ok := PushEntry(key, origin, size, site);
      }
    }

    method ReplayUse(key: Key, origin: RecordKind, site: Site) returns (ok: bool)
      requires Fits(State())
      modifies `findings
      ensures ok <==> Fits(UseEntry(old(State()), key, origin, site))
      ensures State() == if ok then UseEntry(old(State()), key, origin, site) else old(State())
    {
      ok := true;
      var live := Latest(key, true);
      if live < 0 {
        var any := Latest(key, false);
        ok := PushFinding(InvalidUse, key, origin, site, any);
      }
    }

    method ReplayReplace(key: Key, related: Option<string>, origin: RecordKind, size: nat, site: Site)
      returns (ok: bool)
      requires Fits(State())
      modifies `entries, `findings
      ensures ok <==> Fits(ReplaceEntry(old(State()), key, related, origin, size, site))
      ensures State() == if ok then ReplaceEntry(old(State()), key, related, origin, size, site)
                         else ReplaceStopped(old(State()), key, related, origin, site)
      ensures Fits(State())
    {
      if related == None || related == Some("") {
        var any := Latest(key, false);
        ok := PushFinding(BadReplace, key, origin, site, any);
      } else {
        ok := Release(key, origin, site);
        if ok {
          ok := PushEntry(key.(id := related.value), origin, size, site);
        }
      }
    }

    method ReplayResource(key: Key, op: ResourceKind, related: Option<string>, origin: RecordKind, size: nat,
                          site: Site)
      returns (ok: bool)
      requires Fits(State())
      modifies `entries, `findings
      ensures ok <==> Fits(IngestResource(old(State()), key, op, related, origin, size, site))
      ensures State() == if ok then IngestResource(old(State()), key, op, related, origin, size, site)
                         else ResourceStopped(old(State()), key, op, related, origin, site)
      ensures Fits(State())
    {
      ok := true;
      if !IgnoredClass(key.cls) {
        ok := ReplayStep(key, op, related, origin, size, site);
      }
    }

    /** The switch over the operations. */
    method ReplayStep(key: Key, op: ResourceKind, related: Option<string>, origin: RecordKind, size: nat, site: Site)
      returns (ok: bool)
      requires Fits(State())
      modifies `entries, `findings
      ensures ok <==> Fits(ResourceStep(old(State()), key, op, related, origin, size, site))
      ensures State() == if ok then ResourceStep(old(State()), key, op, related, origin, size, site)
                         else ResourceStopped(old(State()), key, op, related, origin, site)
      ensures Fits(State())
    {
      match op {
        case Acquire => ok := Acquire(key, origin, size, site);
        case Release => ok := Release(key, origin, site);
        case Use => ok := ReplayUse(key, origin, site);
        case _ => ok := ReplayReplace(key, related, origin, size, site);
      }
    }

    /** A reallocation of a block: it is released or reported as unknown. */
    method ReplayLeave(key: Key, site: Site) returns (ok: bool)
      requires Fits(State())
      modifies `entries, `findings
      ensures ok <==> Fits(LeaveBlock(old(State()), key, site))
      ensures State() == if ok then LeaveBlock(old(State()), key, site) else old(State())
    {
      var live := Latest(key, true);
      if live < 0 {
        var any := Latest(key, false);
        ok := PushFinding(BadReplace, key, AllocRecord, site, any);
      } else {
        ok := Release(key, AllocRecord, site);
      }
    }

    method ReplayAllocation(pid: int, kind: AllocKind, ptr: Option<string>, newPtr: Option<string>, size: nat,
                            site: Site)
      returns (ok: bool)
      requires Fits(State())
      modifies `entries, `findings
      ensures ok <==> Fits(IngestAllocation(old(State()), pid, kind, ptr, newPtr, size, site))
      ensures State() == if ok then IngestAllocation(old(State()), pid, kind, ptr, newPtr, size, site)
                         else AllocationStopped(old(State()), pid, kind, ptr, newPtr, site)
      ensures Fits(State())
    {
      ok := true;
      var key := Key(pid, ALLOCATION_CLASS, if ptr.Some? then ptr.value else "");
      var newKey := Key(pid, ALLOCATION_CLASS, if newPtr.Some? then newPtr.value else "");
      match kind {
        case Alloc =>
          if ptr.Some? {
            ok := Acquire(key, AllocRecord, size, site);
          }
        case Free =>
          if ptr.Some? {
            ok := Release(key, AllocRecord, site);
          }
        case Realloc =>
          if ptr.None? {
            if newPtr.Some? {
              ok := Acquire(newKey, AllocRecord, size, site);
            }
          } else {
            ok := ReplayRealloc(key, newKey, newPtr.Some?, size, site);
          }
      }
    }

    method ReplayRealloc(key: Key, newKey: Key, hasResult: bool, size: nat, site: Site) returns (ok: bool)
      requires Fits(State())
      modifies `entries, `findings
      ensures ok <==> Fits(if hasResult then MoveBlock(old(State()), key, newKey, size, site)
                           else ReallocLost(old(State()), key, site))
      ensures ok ==> State() == if hasResult then MoveBlock(old(State()), key, newKey, size, site)
                                else ReallocLost(old(State()), key, site)
      ensures !ok ==> State() == if hasResult then MoveStopped(old(State()), key, newKey, site) else old(State())
      ensures Fits(State())
    {
      ok := true;
      var live := Latest(key, true);
      if live < 0 || hasResult {
        ok := ReplayLeave(key, site);
      }
      if ok && hasResult {
        ok := Acquire(newKey, AllocRecord, size, site);
      }
    }

    /** take_stray_release: the oldest one, removed in place. */
    method TakeStray(key: Key) returns (found: bool, stray: Finding, ghost index: nat)
      modifies `findings
      ensures StrayTaken(old(findings), findings, key, found, stray, index)
    {
      var i := 0;
      while i < |findings| && !IsStray(findings[i], key)
        invariant i <= |findings| && forall k :: 0 <= k < i ==> !IsStray(findings[k], key)
      {
        i := i + 1;
      }
      found, index := i < |findings|, i;
      if found {
        stray := findings[i];
        findings := findings[..i] + findings[i + 1..];
      } else {
        stray := Finding(StrayRelease, key, FdRecord, Site(0, 0, 0, false, 0, "", ""), None, false);
      }
    }

    /** reconcile_stray_releases: rounds until no stray release of the key is left. */
    method ReconcileStrays(key: Key) returns (ok: bool)
      requires Fits(State()) && FindLatest(entries, key, false) >= 0
      modifies `entries, `findings
      ensures ok && Fits(State()) && State() == Reconcile(old(State()), key)
    {
      ok := true;
      ghost var before := State();
      var found, stray;
      ghost var index: nat;
      found, stray, index := TakeStray(key);
      while found
        invariant ok && Fits(before) && FindLatest(before.entries, key, false) >= 0
        invariant Reconcile(before, key) == Reconcile(old(State()), key)
        invariant entries == before.entries
        invariant StrayTaken(before.findings, findings, key, found, stray, index)
        decreases |Strays(before.findings, key)|, found
      {
        StrayRound(before, findings, key, stray, index);
        ok := Release(key, stray.origin, stray.site);
        if !ok {
          return;
        }
        before := State();
        found, stray, index := TakeStray(key);
      }
      NoRoundLeft(before, findings, key, stray, index);
    }

    method ReplayFork(parent: int, child: int, site: Site) returns (ok: bool)
      requires Fits(State())
      modifies `entries, `findings
      ensures ok <==> (parent < 0 || child < 0 || parent == child
                       || NamesFit(old(State()), |old(entries)|, parent, child, site))
                      && Fits(IngestFork(old(State()), parent, child, site))
      ensures ok ==> State() == IngestFork(old(State()), parent, child, site)
      ensures ok && parent >= 0 && child >= 0 && parent != child ==>
                ForkCopied(old(State()), State(), parent, child, site)
      ensures ok && (parent < 0 || child < 0 || parent == child) ==> State() == old(State())
      ensures !ok ==> ForkStopped(old(State()), State(), parent, child, site)
      ensures Fits(State())
    {
      ok := true;
      if parent < 0 || child < 0 || parent == child {
        return;
      }
      ok := OfferEntries(parent, child, site);
      ForkCopies(old(State()), parent, child, site);
    }

    /** The fork loop: the entries there are now are offered to the child. */
    method OfferEntries(parent: int, child: int, site: Site) returns (ok: bool)
      requires Fits(State())
      modifies `entries, `findings
      ensures ok <==> NamesFit(old(State()), |old(entries)|, parent, child, site)
                      && Fits(ForkFirst(old(State()), |old(entries)|, parent, child, site))
      ensures ok ==> State() == ForkFirst(old(State()), |old(entries)|, parent, child, site)
      ensures !ok ==> ForkStopped(old(State()), State(), parent, child, site)
      ensures Fits(State())
    {
      ghost var m := State();
      var inheritedCount := |entries|;
      var index := 0;
      ok := true;
      while ok && index < inheritedCount
        invariant index <= inheritedCount == |m.entries| && Fits(State())
        invariant ok ==> State() == ForkFirst(m, index, parent, child, site) && NamesFit(m, index, parent, child, site)
        invariant !ok ==> ForkStopped(m, State(), parent, child, site)
        invariant !ok ==> !(NamesFit(m, |m.entries|, parent, child, site)
                            && Fits(ForkFirst(m, |m.entries|, parent, child, site)))
      {
        ForkTurn(m, index, parent, child, site);
        NamesFitNext(m, index, parent, child, site);
        ok := OfferEntry(index, parent, child, site);
        if !ok {
          assert RefusedAt(m, index, parent, child, site);
          RefusedTurn(m, index, parent, child, site);
        }
        index := index + 1;
      }
    }

    /** One turn of the fork loop. */
    method OfferEntry(index: nat, parent: int, child: int, site: Site) returns (ok: bool)
      requires Fits(State()) && index < |entries|
      modifies `entries, `findings
      ensures ok <==> NameFits(old(State()), index, parent, child)
                      && Fits(ForkStep(old(State()), index, parent, child, site))
      ensures State() == if ok then ForkStep(old(State()), index, parent, child, site) else old(State())
      ensures Fits(State())
    {
      ok := true;
      var entry := entries[index];
      if entry.key.pid != parent || !entry.live || entry.key.cls != FD_CLASS {
        return;
      }
      var key := entry.key.(pid := child);
      var existing := Latest(key, false);
      if existing >= 0 {
        return;
      }
      ForkStepBounds(State(), index, parent, child, site);
      if |key.id| > IDENTIFIER_LIMIT {
        return false;
      }
      ok := PushEntry(key, entry.origin, entry.size, site);
      if ok {
        assert FindLatest(entries, key, false) == |entries| - 1;
        ok := ReconcileStrays(key);
      }
    }

    method ReplayExec(key: Key, cloexec: bool, site: Site) returns (ok: bool)
      requires Fits(State())
      modifies `entries, `findings
      ensures ok <==> Fits(IngestExec(old(State()), key, cloexec, site))
      ensures State() == if ok then IngestExec(old(State()), key, cloexec, site) else old(State())
    {
      ok := true;
      var live := Latest(key, true);
      if live >= 0 {
        if !cloexec {
          ok := PushFinding(ExecInherit, key, ExecRecord, site, live);
        } else {
          ok := Release(key, ExecRecord, site);
          entries := entries[live := entries[live].(pending := true)];
        }
      }
    }

    /** rollback_exec: restores entries, then compacts the findings in place. */
    method RollbackExec(pid: int)
      requires Fits(State())
      modifies `entries, `findings
      ensures State() == Rollback(old(State()), pid) && Fits(State())
    {
      RestoreEntries(pid);
      CompactFindings(pid);
    }

    method RestoreEntries(pid: int)
      modifies `entries
      ensures entries == RestoredAll(old(entries), pid)
    {
      var index := 0;
      while index < |entries|
        invariant index <= |entries| == |old(entries)|
        invariant entries == RestoredAll(old(entries)[..index], pid) + old(entries)[index..]
      {
        var entry := entries[index];
        RestoredNext(old(entries), index, pid);
        if entry.key.pid == pid && entry.pending {
          entries := entries[index := entry.(released := None, live := true, pending := false)];
        }
        index := index + 1;
      }
      assert old(entries)[..index] == old(entries);
    }

    method CompactFindings(pid: int)
      modifies `findings
      ensures findings == KeptFindings(old(findings), pid) && |findings| <= |old(findings)|
    {
      var writeIndex, index := 0, 0;
      while index < |findings|
        invariant writeIndex <= index <= |findings| == |old(findings)|
        invariant findings[..writeIndex] == KeptFindings(old(findings)[..index], pid)
        invariant findings[index..] == old(findings)[index..]
      {
        var finding := findings[index];
        KeptNext(old(findings), index, pid);
        RestSame(findings, old(findings), index);
        if !(finding.key.pid == pid && finding.pending) {
          WriteNext(findings, writeIndex, index);
          findings := findings[writeIndex := finding];
          writeIndex := writeIndex + 1;
        }
        index := index + 1;
      }
      assert old(findings)[..index] == old(findings);
      findings := findings[..writeIndex];
    }

    /** p101_tool_event_lifecycle_ingest. */
    method Ingest(r: LogRecord) returns (ok: bool)
      requires Fits(State())
      modifies this
      ensures ok <==> Admitted(old(runId), r) && Replayable(old(State()), r)
                      && Fits(LifecycleSpec.Ingest(old(State()), r))
      ensures ok ==> State() == LifecycleSpec.Ingest(old(State()), r) && runId == r.runId.value && !finished
      ensures !ok ==> runId == old(runId)
      ensures !ok && Admitted(old(runId), r) ==> Stopped(old(State()), State(), r) && !finished
      ensures !Admitted(old(runId), r) ==> State() == old(State()) && finished == old(finished)
      ensures Fits(State())
    {
      ok := Admitted(runId, r);
      if !ok {
        return;
      }
      finished := false;
      var site := SiteOf(r);
      match r.body {
        case ResourceBody(op, cls, id, related) =>
          ok := cls.Some? && id.Some?;
          if ok {
            ok := ReplayResource(Key(r.pid, cls.value, id.value), op, related, ResourceRecord, r.size, site);
          }
        case FdBody(kind, fd) =>
          ok := ReplayResource(FdKey(r.pid, fd), if kind == Open then ResourceKind.Acquire else ResourceKind.Release,
                               None, FdRecord, 0, site);
        case AllocBody(kind, ptr, newPtr) =>
          ok := ReplayAllocation(r.pid, kind, ptr, newPtr, r.size, site);
        case ForkBody(child) =>
          ok := ReplayFork(r.pid, child, site);
        case ExecBody(fd, cloexec) =>
          ok := ReplayExec(FdKey(r.pid, fd), cloexec, site);
        case ExecFailBody =>
          RollbackExec(r.pid);
        case OtherBody =>
          ok := false;
      }
      if ok && runId == "" {
        runId := r.runId.value;
      }
    }

    /** The version is right, and the run id is present, short enough and the
        same as that of the records before. */
    predicate Admitted(current: string, r: LogRecord) {
      r.version == LOG_VERSION && r.runId.Some? && r.runId.value != "" && |r.runId.value| <= runIdLimit
      && (current != "" ==> current == r.runId.value)
    }

    /** The first loop of finish: every live entry becomes a leak. */
    method ReportLeaks() returns (ok: bool)
      requires Fits(State())
      modifies `entries, `findings
      ensures ok <==> |old(findings) + Leaks(old(entries))| <= MAX_FINDINGS
      ensures ok ==> findings == old(findings) + Leaks(old(entries)) && SettledTo(old(entries), entries, |old(entries)|)
      ensures !ok ==> LeaksStopped(old(State()), State())
      ensures Fits(State())
    {
      hide LeakOf, Leaks;
      ghost var m := State();
      ok := true;
      var index := 0;
      NoLeaksYet(m);
      while ok && index < |entries|
        invariant index <= |entries| == |m.entries| && Fits(State())
        invariant ok ==> SettledTo(m.entries, entries, index) && findings == m.findings + Leaks(m.entries[..index])
        invariant !ok ==> LeaksStopped(m, State()) && |m.findings| + |Leaks(m.entries)| > MAX_FINDINGS
      {
        ghost var before := entries;
        ok := ReportLeak(index);
        LeaksNext(m.entries, index);
        SettledNext(m.entries, before, index);
        AppendLeak(m.findings, Leaks(m.entries[..index]), LeakOf(m.entries[index]));
        if !ok {
          LeaksGrow(m.entries, index + 1);
          assert StoppedAtEntry(m, State(), index);
        }
        index := index + 1;
      }
      assert m.entries[..|m.entries|] == m.entries;
    }

    /** One turn: the entry is settled, and reported if it is live. */
    method ReportLeak(index: nat) returns (ok: bool)
      requires Fits(State()) && index < |entries|
      modifies `entries, `findings
      ensures entries == old(entries)[index := old(entries)[index].(pending := false)]
      ensures ok <==> !old(entries)[index].live || |old(findings)| < MAX_FINDINGS
      ensures findings == old(findings) + (if ok && old(entries)[index].live then [LeakOf(old(entries)[index])] else [])
    {
      ok := true;
      var entry := entries[index].(pending := false);
      entries := entries[index := entry];
      if entry.live {
        ok := |findings| < MAX_FINDINGS;
        if ok {
          findings := findings + [LeakOf(entry)];
        }
      }
    }

    /** The second loop of finish: nothing stays provisional. */
    method SettleFindings()
      modifies `findings
      ensures |findings| == |old(findings)|
              && forall k :: 0 <= k < |findings| ==> findings[k] == old(findings)[k].(pending := false)
    {
      var index := 0;
      while index < |findings|
        invariant index <= |findings| == |old(findings)|
        invariant forall k :: 0 <= k < |findings| ==>
                  findings[k] == if k < index then old(findings)[k].(pending := false) else old(findings)[k]
      {
        findings := findings[index := findings[index].(pending := false)];
        index := index + 1;
      }
    }

    /** p101_tool_event_lifecycle_finish: leaks once, then nothing until the
        next record. */
    method Finish() returns (ok: bool)
      requires Fits(State())
      modifies this
      ensures old(finished) ==> ok && State() == old(State()) && finished
      ensures !old(finished) ==> (ok <==> Fits(LifecycleSpec.Finish(old(State()))))
      ensures !old(finished) && ok ==> State() == LifecycleSpec.Finish(old(State())) && finished
      ensures !ok ==> LeaksStopped(old(State()), State()) && !finished
      ensures Fits(State()) && runId == old(runId)
    {
      ok := true;
      if finished {
        return;
      }
      ok := ReportLeaks();
      if ok {
        SettledIsFinished(old(State()), entries);
        SettleFindings();
        finished := true;
      }
    }
  }

  // ---------- Steps of the loops ----------

  lemma {:induction false} RestoredNext(entries: seq<Entry>, k: nat, pid: int)
    requires k < |entries|
    ensures var done := RestoredAll(entries[..k], pid) + entries[k..];
            done[k] == entries[k]
            && done[k := Restored(entries[k], pid)] == RestoredAll(entries[..k + 1], pid) + entries[k + 1..]
  {
    var done := RestoredAll(entries[..k], pid) + entries[k..];
    assert done[k] == entries[k..][0];
    var next := RestoredAll(entries[..k + 1], pid) + entries[k + 1..];
    forall j | 0 <= j < |entries|
      ensures done[k := Restored(entries[k], pid)][j] == next[j]
    {
      if j > k {
        assert done[j] == entries[k..][j - k] && next[j] == entries[k + 1..][j - k - 1];
      }
    }
  }

  lemma {:induction false} KeptNext(findings: seq<Finding>, k: nat, pid: int)
    requires k < |findings|
    ensures KeptFindings(findings[..k + 1], pid)
            == KeptFindings(findings[..k], pid)
               + (if findings[k].key.pid == pid && findings[k].pending then [] else [findings[k]])
  {
    assert findings[..k + 1][..k] == findings[..k];
  }

  lemma {:induction false} RestSame(a: seq<Finding>, b: seq<Finding>, k: nat)
    requires k < |a| == |b| && a[k..] == b[k..]
    ensures a[k] == b[k] && a[k + 1..] == b[k + 1..]
  {
    assert a[k] == a[k..][0] && b[k] == b[k..][0];
    forall j | k + 1 <= j < |a|
      ensures a[j] == b[j]
    {
      assert a[j] == a[k..][j - k] && b[j] == b[k..][j - k];
    }
  }

  lemma {:induction false} WriteNext(findings: seq<Finding>, w: nat, k: nat)
    requires w <= k < |findings|
    ensures findings[w := findings[k]][..w + 1] == findings[..w] + [findings[k]]
    ensures findings[w := findings[k]][k + 1..] == findings[k + 1..]
  {}

  lemma {:induction false} AppendLeak(findings: seq<Finding>, leaks: seq<Finding>, f: Finding)
    ensures findings + leaks + [f] == findings + (leaks + [f])
  {}

  lemma {:induction false} SettledNext(before: seq<Entry>, after: seq<Entry>, k: nat)
    requires k < |before| && SettledTo(before, after, k)
    ensures after[k] == before[k] && SettledTo(before, after[k := before[k].(pending := false)], k + 1)
  {
    assert SettledAt(before, after, k, k);
    var next, done := after[k := before[k].(pending := false)], k + 1;
    forall i: nat | i < |before|
      ensures SettledAt(before, next, done, i)
    {
      assert SettledAt(before, after, k, i);
    }
  }

  lemma {:induction false} NoLeaksYet(m: Model)
    ensures SettledTo(m.entries, m.entries, 0) && m.findings == m.findings + Leaks(m.entries[..0])
  {}

  lemma {:induction false} SettledIsFinished(m: Model, after: seq<Entry>)
    requires SettledTo(m.entries, after, |m.entries|)
    ensures after == LifecycleSpec.Finish(m).entries
  {
    forall i | 0 <= i < |m.entries|
      ensures after[i] == LifecycleSpec.Finish(m).entries[i]
    {
      assert SettledAt(m.entries, after, |m.entries|, i);
    }
  }

  lemma {:induction false} LeaksNext(entries: seq<Entry>, k: nat)
    requires k < |entries|
    ensures Leaks(entries[..k + 1]) == Leaks(entries[..k]) + (if entries[k].live then [LeakOf(entries[k])] else [])
  {
    assert entries[..k + 1][..k] == entries[..k];
  }

  lemma {:induction false} LeaksGrow(entries: seq<Entry>, k: nat)
    requires k <= |entries|
    ensures |Leaks(entries[..k])| <= |Leaks(entries)|
    decreases |entries|
  {
    if k < |entries| {
      var n := |entries| - 1;
      LeaksGrow(entries[..n], k);
      assert entries[..n][..k] == entries[..k];
    } else {
      assert entries[..k] == entries;
    }
  }
}
