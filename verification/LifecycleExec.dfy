/** A failed exec leaves no trace: its provisional effects are undone exactly,
    and whatever other processes did meanwhile is as if it had never begun. */
module LifecycleExec {
  import opened Events
  import opened Wrappers
  import opened LifecycleSpec
  import opened LifecycleAccounting
  import opened LifecyclePending

  /** No earlier exec of the process is still provisional. */
  ghost predicate NoPending(m: Model, pid: int) {
    (forall e :: e in m.entries ==> !(e.key.pid == pid && e.pending))
    && forall f :: f in m.findings ==> !(f.key.pid == pid && f.pending)
  }

  /** The entries of the key are none of the process's provisional ones. */
  ghost predicate Settled(entries: seq<Entry>, key: Key, pid: int) {
    forall e :: e in entries && e.key == key ==> !(key.pid == pid && e.pending)
  }

  // ---------- Rolling back and the tables ----------

  lemma {:induction false} FindLatestRestored(entries: seq<Entry>, key: Key, liveOnly: bool, pid: int)
    requires Settled(entries, key, pid) || !liveOnly
    ensures FindLatest(RestoredAll(entries, pid), key, liveOnly) == FindLatest(entries, key, liveOnly)
  {
    if entries != [] {
      var n := |entries| - 1;
      assert entries[n] in entries;
      FindLatestRestored(entries[..n], key, liveOnly, pid);
      assert RestoredAll(entries, pid)[..n] == RestoredAll(entries[..n], pid);
    }
  }

  lemma {:induction false} KeptAppend(findings: seq<Finding>, f: Finding, pid: int)
    ensures KeptFindings(findings + [f], pid)
            == KeptFindings(findings, pid) + (if f.key.pid == pid && f.pending then [] else [f])
  {
    assert (findings + [f])[..|findings|] == findings;
  }

  lemma {:induction false} AddEntryRolledBack(m: Model, key: Key, origin: RecordKind, size: nat, site: Site, pid: int)
    ensures Rollback(AddEntry(m, key, origin, size, site), pid) == AddEntry(Rollback(m, pid), key, origin, size, site)
  {
    var e := Entry(key, origin, size, site, None, true, false);
    assert RestoredAll(m.entries + [e], pid) == RestoredAll(m.entries, pid) + [e];
  }

  lemma {:induction false} AddFindingRolledBack(m: Model, kind: FindingKind, key: Key, origin: RecordKind, site: Site,
                                                index: int, pid: int)
    requires -1 <= index < |m.entries| && (kind == ExecInherit ==> key.pid != pid)
    requires index >= 0 ==> Restored(m.entries[index], pid) == m.entries[index]
    ensures Rollback(AddFinding(m, kind, key, origin, site, index), pid)
            == AddFinding(Rollback(m, pid), kind, key, origin, site, index)
  {
    KeptAppend(m.findings, NewFinding(m, kind, key, origin, site, index), pid);
  }

  lemma {:induction false} UpdateRolledBack(m: Model, index: nat, e: Entry, pid: int)
    requires index < |m.entries|
    ensures RestoredAll(m.entries[index := e], pid) == RestoredAll(m.entries, pid)[index := Restored(e, pid)]
  {}

  /** A finding about the newest entry of a settled key. */
  lemma {:induction false} ReportRolledBack(m: Model, kind: FindingKind, key: Key, origin: RecordKind, site: Site,
                                            liveOnly: bool, pid: int)
    requires Settled(m.entries, key, pid) && (kind == ExecInherit ==> key.pid != pid)
    ensures Rollback(AddFinding(m, kind, key, origin, site, FindLatest(m.entries, key, liveOnly)), pid)
            == AddFinding(Rollback(m, pid), kind, key, origin, site,
                          FindLatest(Rollback(m, pid).entries, key, liveOnly))
  {
    FindLatestRestored(m.entries, key, liveOnly, pid);
    var index := FindLatest(m.entries, key, liveOnly);
    if index >= 0 {
      assert m.entries[index] in m.entries;
    }
    AddFindingRolledBack(m, kind, key, origin, site, index, pid);
  }

  lemma {:induction false} ReleaseRolledBack(m: Model, key: Key, origin: RecordKind, site: Site, pid: int)
    requires Settled(m.entries, key, pid)
    ensures Rollback(ReleaseEntry(m, key, origin, site), pid) == ReleaseEntry(Rollback(m, pid), key, origin, site)
    ensures Settled(ReleaseEntry(m, key, origin, site).entries, key, pid)
  {
    FindLatestRestored(m.entries, key, true, pid);
    FindLatestRestored(m.entries, key, false, pid);
    var live := FindLatest(m.entries, key, true);
    if live >= 0 {
      var e := m.entries[live];
      assert e in m.entries;
      UpdateRolledBack(m, live, e.(live := false, released := Some(site)), pid);
    } else {
      var kind := if FindLatest(m.entries, key, false) < 0 then StrayRelease else DoubleRelease;
      ReportRolledBack(m, kind, key, origin, site, false, pid);
    }
  }

  lemma {:induction false} AcquireRolledBack(m: Model, key: Key, origin: RecordKind, size: nat, site: Site, pid: int)
    requires Settled(m.entries, key, pid)
    ensures Rollback(AcquireEntry(m, key, origin, size, site), pid)
            == AcquireEntry(Rollback(m, pid), key, origin, size, site)
  {
    FindLatestRestored(m.entries, key, true, pid);
    var live := FindLatest(m.entries, key, true);
    if live >= 0 {
      ReportRolledBack(m, DuplicateAcquire, key, origin, site, true, pid);
      AddEntryRolledBack(AddFinding(m, DuplicateAcquire, key, origin, site, live), key, origin, size, site, pid);
    } else {
      AddEntryRolledBack(m, key, origin, size, site, pid);
    }
  }

  // ---------- Records of other processes ----------

  lemma {:induction false} UseRolledBack(m: Model, key: Key, origin: RecordKind, site: Site, pid: int)
    requires key.pid != pid
    ensures Rollback(UseEntry(m, key, origin, site), pid) == UseEntry(Rollback(m, pid), key, origin, site)
  {
    FindLatestRestored(m.entries, key, true, pid);
    ReportRolledBack(m, InvalidUse, key, origin, site, false, pid);
  }

  lemma {:induction false} ReplaceRolledBack(m: Model, key: Key, related: Option<string>, origin: RecordKind, size: nat,
                                             site: Site, pid: int)
    requires key.pid != pid
    ensures Rollback(ReplaceEntry(m, key, related, origin, size, site), pid)
            == ReplaceEntry(Rollback(m, pid), key, related, origin, size, site)
  {
    if related == None || related == Some("") {
      ReportRolledBack(m, BadReplace, key, origin, site, false, pid);
    } else {
      ReleaseRolledBack(m, key, origin, site, pid);
      AddEntryRolledBack(ReleaseEntry(m, key, origin, site), key.(id := related.value), origin, size, site, pid);
    }
  }

  lemma {:induction false} ResourceRolledBack(m: Model, key: Key, op: ResourceKind, related: Option<string>,
                                              origin: RecordKind, size: nat, site: Site, pid: int)
    requires key.pid != pid
    ensures Rollback(ResourceStep(m, key, op, related, origin, size, site), pid)
            == ResourceStep(Rollback(m, pid), key, op, related, origin, size, site)
  {
    match op
    case Acquire => AcquireRolledBack(m, key, origin, size, site, pid);
    case Release => ReleaseRolledBack(m, key, origin, site, pid);
    case Use => UseRolledBack(m, key, origin, site, pid);
    case _ => ReplaceRolledBack(m, key, related, origin, size, site, pid);
  }

  lemma {:induction false} MoveRolledBack(m: Model, key: Key, newKey: Key, size: nat, site: Site, pid: int)
    requires key.pid != pid && newKey.pid != pid
    ensures Rollback(ReallocLost(m, key, site), pid) == ReallocLost(Rollback(m, pid), key, site)
    ensures Rollback(MoveBlock(m, key, newKey, size, site), pid) == MoveBlock(Rollback(m, pid), key, newKey, size, site)
  {
    FindLatestRestored(m.entries, key, true, pid);
    ReportRolledBack(m, BadReplace, key, AllocRecord, site, false, pid);
    if FindLatest(m.entries, key, true) >= 0 {
      ReleaseRolledBack(m, key, AllocRecord, site, pid);
      AcquireRolledBack(ReleaseEntry(m, key, AllocRecord, site), newKey, AllocRecord, size, site, pid);
    } else {
      AcquireRolledBack(ReallocLost(m, key, site), newKey, AllocRecord, size, site, pid);
    }
  }

  lemma {:induction false} AllocationRolledBack(m: Model, owner: int, kind: AllocKind, ptr: Option<string>,
                                                newPtr: Option<string>, size: nat, site: Site, pid: int)
    requires owner != pid
    ensures Rollback(IngestAllocation(m, owner, kind, ptr, newPtr, size, site), pid)
            == IngestAllocation(Rollback(m, pid), owner, kind, ptr, newPtr, size, site)
  {
    var key := Key(owner, ALLOCATION_CLASS, if ptr.Some? then ptr.value else "");
    var newKey := Key(owner, ALLOCATION_CLASS, if newPtr.Some? then newPtr.value else "");
    match kind
    case Alloc => AcquireRolledBack(m, key, AllocRecord, size, site, pid);
    case Free => ReleaseRolledBack(m, key, AllocRecord, site, pid);
    case Realloc =>
      if ptr.None? {
        AcquireRolledBack(m, newKey, AllocRecord, size, site, pid);
      } else {
        MoveRolledBack(m, key, newKey, size, site, pid);
      }
  }

  // ---------- Forks, also into the process ----------

  /** Stray releases are never provisional. */
  lemma {:induction false} StraysKept(findings: seq<Finding>, key: Key, pid: int)
    requires FindingsOk(findings)
    ensures Strays(KeptFindings(findings, pid), key) == Strays(findings, key)
    ensures Rest(KeptFindings(findings, pid), key) == KeptFindings(Rest(findings, key), pid)
  {
    if findings != [] {
      var n := |findings| - 1;
      var f, init := findings[n], findings[..n];
      StraysKept(init, key, pid);
      assert FindingOk(f);
      var kept, rest := KeptFindings(init, pid), Rest(init, key);
      assert (kept + [f])[..|kept|] == kept && kept + [] == kept;
      assert (rest + [f])[..|rest|] == rest && rest + [] == rest;
      assert Strays(init, key) + [] == Strays(init, key);
      assert KeptFindings(rest, pid) + [] == KeptFindings(rest, pid);
    }
  }

  lemma {:induction false} ReleaseAllRolledBack(m: Model, strays: seq<Finding>, key: Key, pid: int)
    requires Settled(m.entries, key, pid) && forall f :: f in strays ==> f.key == key
    ensures Rollback(ReleaseAll(m, strays), pid) == ReleaseAll(Rollback(m, pid), strays)
    ensures Settled(ReleaseAll(m, strays).entries, key, pid)
  {
    if strays != [] {
      var last, init := strays[|strays| - 1], strays[..|strays| - 1];
      assert last in strays;
      ReleaseAllRolledBack(m, init, key, pid);
      ReleaseRolledBack(ReleaseAll(m, init), key, last.origin, last.site, pid);
    }
  }

  lemma {:induction false} FindLatestNone(entries: seq<Entry>, key: Key)
    requires FindLatest(entries, key, false) < 0
    ensures forall e :: e in entries ==> e.key != key
  {
    if entries != [] {
      FindLatestNone(entries[..|entries| - 1], key);
      assert entries == entries[..|entries| - 1] + [entries[|entries| - 1]];
    }
  }

  lemma {:induction false} ReconcileRolledBack(m: Model, key: Key, pid: int)
    requires FindingsOk(m.findings) && Settled(m.entries, key, pid)
    ensures Rollback(Reconcile(m, key), pid) == Reconcile(Rollback(m, pid), key)
  {
    var quiet := m.(findings := Rest(m.findings, key));
    StraysKept(m.findings, key, pid);
    StraysHaveTheKey(m.findings, key);
    ReleaseAllRolledBack(quiet, Strays(m.findings, key), key, pid);
  }

  lemma {:induction false} StraysHaveTheKey(findings: seq<Finding>, key: Key)
    ensures forall f :: f in Strays(findings, key) ==> f.key == key
  {
    if findings != [] {
      StraysHaveTheKey(findings[..|findings| - 1], key);
    }
  }

  /** An entry of a key that had none is settled. */
  lemma {:induction false} FirstIsSettled(m: Model, key: Key, origin: RecordKind, size: nat, site: Site, pid: int)
    requires FindLatest(m.entries, key, false) < 0
    ensures Settled(AddEntry(m, key, origin, size, site).entries, key, pid)
  {
    FindLatestNone(m.entries, key);
  }

  lemma {:induction false} ForkStepRolledBack(m: Model, i: nat, parent: int, child: int, site: Site, pid: int)
    requires Sound(m) && i < |m.entries| && parent != pid
    ensures Rollback(ForkStep(m, i, parent, child, site), pid) == ForkStep(Rollback(m, pid), i, parent, child, site)
  {
    var e := m.entries[i];
    var key := e.key.(pid := child);
    FindLatestRestored(m.entries, key, false, pid);
    if Inherits(m, i, parent, child) {
      FirstIsSettled(m, key, e.origin, e.size, site, pid);
      AddEntryRolledBack(m, key, e.origin, e.size, site, pid);
      ReconcileRolledBack(AddEntry(m, key, e.origin, e.size, site), key, pid);
    }
  }

  lemma {:induction false} ForkRolledBack(m: Model, n: nat, parent: int, child: int, site: Site, pid: int)
    requires Sound(m) && n <= |m.entries| && parent != pid
    ensures Rollback(ForkFirst(m, n, parent, child, site), pid) == ForkFirst(Rollback(m, pid), n, parent, child, site)
  {
    hide ForkStep;
    if n > 0 {
      var before := ForkFirst(m, n - 1, parent, child, site);
      ForkRolledBack(m, n - 1, parent, child, site, pid);
      ForkCounts(m, n - 1, parent, child, site);
      ForkStepRolledBack(before, n - 1, parent, child, site, pid);
    }
  }

  // ---------- Execs ----------

  lemma {:induction false} ExecRolledBack(m: Model, key: Key, cloexec: bool, site: Site, pid: int)
    requires key.pid != pid
    ensures Rollback(IngestExec(m, key, cloexec, site), pid) == IngestExec(Rollback(m, pid), key, cloexec, site)
  {
    FindLatestRestored(m.entries, key, true, pid);
    var live := FindLatest(m.entries, key, true);
    if live >= 0 {
      if cloexec {
        var dead := m.entries[live].(live := false, released := Some(site), pending := true);
        assert IngestExec(m, key, cloexec, site).entries == m.entries[live := dead];
        UpdateRolledBack(m, live, dead, pid);
        assert IngestExec(Rollback(m, pid), key, cloexec, site).entries == Rollback(m, pid).entries[live := dead];
      } else {
        ReportRolledBack(m, ExecInherit, key, ExecRecord, site, true, pid);
      }
    }
  }

  /** The process's own exec records are undone by its rollback. */
  lemma {:induction false} OwnExecUndone(m: Model, key: Key, cloexec: bool, site: Site)
    requires Sound(m)
    ensures Rollback(IngestExec(m, key, cloexec, site), key.pid) == Rollback(m, key.pid)
  {
    var live := FindLatest(m.entries, key, true);
    if live >= 0 {
      if cloexec {
        var e := m.entries[live];
        var dead := e.(live := false, released := Some(site), pending := true);
        assert EntryOk(e);
        assert IngestExec(m, key, cloexec, site).entries == m.entries[live := dead];
        UpdateRolledBack(m, live, dead, key.pid);
        assert Restored(dead, key.pid) == e == Restored(e, key.pid);
        assert RestoredAll(m.entries, key.pid)[live := e] == RestoredAll(m.entries, key.pid);
      } else {
        var f := NewFinding(m, ExecInherit, key, ExecRecord, site, live);
        KeptAppend(m.findings, f, key.pid);
      }
    }
  }

  lemma {:induction false} KeptCommute(findings: seq<Finding>, p: int, q: int)
    ensures KeptFindings(KeptFindings(findings, p), q) == KeptFindings(KeptFindings(findings, q), p)
  {
    if findings != [] {
      var n := |findings| - 1;
      var f, init := findings[n], findings[..n];
      KeptCommute(init, p, q);
      KeptAppend(KeptFindings(init, p), f, q);
      KeptAppend(KeptFindings(init, q), f, p);
      assert KeptFindings(init, p) + [] == KeptFindings(init, p) && KeptFindings(init, q) + [] == KeptFindings(init, q);
    }
  }

  lemma {:induction false} RollbacksCommute(m: Model, p: int, q: int)
    ensures Rollback(Rollback(m, p), q) == Rollback(Rollback(m, q), p)
  {
    KeptCommute(m.findings, p, q);
  }

  // ---------- Runs ----------

  lemma {:induction false} OtherRecordRolledBack(m: Model, r: LogRecord, pid: int)
    requires Sound(m) && WellFormed(r) && r.pid != pid
    ensures Rollback(Ingest(m, r), pid) == Ingest(Rollback(m, pid), r)
  {
    var site := SiteOf(r);
    match r.body
    case ResourceBody(op, cls, id, related) =>
      ResourceRolledBack(m, Key(r.pid, cls.value, id.value), op, related, ResourceRecord, r.size, site, pid);
    case FdBody(kind, fd) =>
      ResourceRolledBack(m, FdKey(r.pid, fd),
                         if kind == Open then ResourceKind.Acquire else ResourceKind.Release,
                         None, FdRecord, 0, site, pid);
    case AllocBody(kind, ptr, newPtr) => AllocationRolledBack(m, r.pid, kind, ptr, newPtr, r.size, site, pid);
    case ForkBody(child) => ForkRolledBack(m, |m.entries|, r.pid, child, site, pid);
    case ExecBody(fd, cloexec) => ExecRolledBack(m, FdKey(r.pid, fd), cloexec, site, pid);
    case ExecFailBody => RollbacksCommute(m, r.pid, pid);
  }

  /** The records of the other processes. */
  function Others(rs: seq<LogRecord>, pid: int): seq<LogRecord> {
    if rs == [] then []
    else
      var last := rs[|rs| - 1];
      Others(rs[..|rs| - 1], pid) + (if last.pid == pid then [] else [last])
  }

  lemma {:induction false} OthersWellFormed(rs: seq<LogRecord>, pid: int)
    requires AllWellFormed(rs)
    ensures AllWellFormed(Others(rs, pid))
  {
    if rs != [] {
      OthersWellFormed(rs[..|rs| - 1], pid);
      assert rs[|rs| - 1] in rs;
    }
  }

  lemma {:induction false} ReplaySound(m: Model, rs: seq<LogRecord>)
    requires Sound(m) && AllWellFormed(rs)
    ensures Sound(Replay(m, rs))
  {
    if rs != [] {
      assert rs[|rs| - 1] in rs;
      ReplaySound(m, rs[..|rs| - 1]);
      IngestCounts(Replay(m, rs[..|rs| - 1]), rs[|rs| - 1]);
    }
  }

  /** Rolling back after a run in which the process only attempted execs gives
      what the other processes' records alone would have given. */
  lemma {:induction false} AttemptIsInvisible(m: Model, rs: seq<LogRecord>, pid: int)
    requires Sound(m) && AllWellFormed(rs)
    requires forall r :: r in rs && r.pid == pid ==> r.body.ExecBody?
    ensures AllWellFormed(Others(rs, pid))
    ensures Rollback(Replay(m, rs), pid) == Replay(Rollback(m, pid), Others(rs, pid))
  {
    OthersWellFormed(rs, pid);
    if rs != [] {
      var n := |rs| - 1;
      var r, init, others := rs[n], rs[..n], Others(rs[..n], pid);
      assert r in rs;
      AttemptIsInvisible(m, init, pid);
      ReplaySound(m, init);
      if r.pid == pid {
        OwnExecUndone(Replay(m, init), FdKey(pid, r.body.execFd), r.body.cloexec, SiteOf(r));
        assert others + [] == others;
      } else {
        OtherRecordRolledBack(Replay(m, init), r, pid);
        assert (others + [r])[..|others|] == others;
      }
    }
  }

  lemma {:induction false} NothingDropped(findings: seq<Finding>, pid: int)
    ensures |KeptFindings(findings, pid)| <= |findings|
    ensures |KeptFindings(findings, pid)| == |findings|
            <==> forall f :: f in findings ==> !(f.key.pid == pid && f.pending)
    ensures |KeptFindings(findings, pid)| == |findings| ==> KeptFindings(findings, pid) == findings
  {
    if findings != [] {
      var n := |findings| - 1;
      NothingDropped(findings[..n], pid);
      assert findings == findings[..n] + [findings[n]];
    }
  }

  /** A rollback changes nothing exactly when nothing is provisional. */
  lemma {:induction false} RollbackFixpoint(m: Model, pid: int)
    requires Sound(m)
    ensures Rollback(m, pid) == m <==> NoPending(m, pid)
  {
    NothingDropped(m.findings, pid);
    if NoPending(m, pid) {
      assert RestoredAll(m.entries, pid) == m.entries;
    }
    if Rollback(m, pid) == m {
      forall e | e in m.entries
        ensures !(e.key.pid == pid && e.pending)
      {
        var i :| 0 <= i < |m.entries| && m.entries[i] == e;
        assert RestoredAll(m.entries, pid)[i] == Restored(e, pid);
      }
    }
  }

  lemma {:induction false} OthersAreOthers(rs: seq<LogRecord>, pid: int)
    ensures forall r :: r in Others(rs, pid) ==> r.pid != pid
  {
    if rs != [] {
      OthersAreOthers(rs[..|rs| - 1], pid);
    }
  }

  /** A later state with nothing provisional had nothing provisional before. */
  lemma {:induction false} NoPendingBefore(a: Model, b: Model, pid: int)
    requires Sound(a) && Stays(a, b, pid) && NoPending(b, pid)
    ensures NoPending(a, pid)
  {
    forall i | 0 <= i < |a.entries|
      ensures !(a.entries[i].key.pid == pid && a.entries[i].pending)
    {
      assert EntryStays(a.entries[i], b.entries[i], pid) && b.entries[i] in b.entries;
    }
  }

  /** Exec records of one process followed by its failure, with any records of
      other processes in between, have the effect of the other records alone
      if and only if nothing of the process was provisional before. */
  lemma {:induction false} FailedExecLeavesNoTrace(m: Model, rs: seq<LogRecord>, fail: LogRecord)
    requires Sound(m) && AllWellFormed(rs) && fail.body.ExecFailBody?
    requires forall r :: r in rs && r.pid == fail.pid ==> r.body.ExecBody?
    ensures AllWellFormed(Others(rs, fail.pid))
    ensures Ingest(Replay(m, rs), fail) == Replay(m, Others(rs, fail.pid)) <==> NoPending(m, fail.pid)
  {
    var pid, others := fail.pid, Others(rs, fail.pid);
    AttemptIsInvisible(m, rs, pid);
    RollbackFixpoint(m, pid);
    if Rollback(Replay(m, rs), pid) == Replay(m, others) {
      OthersAreOthers(rs, pid);
      OthersOfOthers(rs, pid);
      AttemptIsInvisible(m, others, pid);
      ReplaySound(m, others);
      RollbackFixpoint(Replay(m, others), pid);
      ReplayStays(m, others, pid);
      NoPendingBefore(m, Replay(m, others), pid);
    }
  }

  lemma {:induction false} OthersOfOthers(rs: seq<LogRecord>, pid: int)
    ensures Others(Others(rs, pid), pid) == Others(rs, pid)
  {
    if rs != [] {
      var init, last := Others(rs[..|rs| - 1], pid), rs[|rs| - 1];
      OthersOfOthers(rs[..|rs| - 1], pid);
      assert (init + [last])[..|init|] == init;
      assert init + [] == init;
    }
  }

  /** The condition is needed: a descriptor closed by an exec that succeeded
      stays provisional, and the failure of a later exec revives it. */
  lemma {:induction false} SuccessfulExecIsRevived(open: LogRecord, exec: LogRecord, fail: LogRecord)
    requires open.pid == exec.pid == fail.pid && open.body == FdBody(Open, 3) && exec.body == ExecBody(3, true)
             && fail.body == ExecFailBody
    ensures var before := Ingest(Ingest(EMPTY, open), exec);
            |before.entries| == 1 && !before.entries[0].live && !NoPending(before, fail.pid)
            && Ingest(before, fail).entries[0].live
  {
    var key := FdKey(open.pid, 3);
    var m1 := Ingest(EMPTY, open);
    assert m1.entries == [Entry(key, FdRecord, 0, SiteOf(open), None, true, false)];
    assert FindLatest(m1.entries, key, true) == 0;
    var m2 := Ingest(m1, exec);
    assert m2.entries[0].pending && m2.entries[0] in m2.entries;
  }
}
