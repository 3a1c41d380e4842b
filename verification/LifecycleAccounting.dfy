/** Release accounting: until the replay is finished, every release operation
    is found again as a dead entry, a stray release or a double release. */
module LifecycleAccounting {
  import opened Events
  import opened Wrappers
  import opened LifecycleSpec

  // ---------- What every run keeps ----------

  /** Provisional entries are dead, live ones were never released, and only
      inherited descriptors are reported provisionally. */
  ghost predicate EntryOk(e: Entry) {
    (e.pending ==> !e.live) && (e.live ==> e.released == None)
  }

  ghost predicate FindingOk(f: Finding) {
    f.pending ==> f.kind == ExecInherit
  }

  ghost predicate EntriesOk(entries: seq<Entry>) {
    forall i :: 0 <= i < |entries| ==> EntryOk(entries[i])
  }

  ghost predicate FindingsOk(findings: seq<Finding>) {
    forall i :: 0 <= i < |findings| ==> FindingOk(findings[i])
  }

  ghost predicate Sound(m: Model) {
    EntriesOk(m.entries) && FindingsOk(m.findings)
  }

  function Dead(entries: seq<Entry>): nat {
    if entries == [] then 0
    else
      var last := entries[|entries| - 1];
      Dead(entries[..|entries| - 1]) + (if !last.live && !last.pending then 1 else 0)
  }

  function Misses(findings: seq<Finding>): nat {
    if findings == [] then 0
    else
      var last := findings[|findings| - 1];
      Misses(findings[..|findings| - 1]) + (if last.kind == StrayRelease || last.kind == DoubleRelease then 1 else 0)
  }

  /** Dead entries not pending an exec, stray releases and double releases. */
  function Accounted(m: Model): nat {
    Dead(m.entries) + Misses(m.findings)
  }

  // ---------- Counting ----------

  lemma {:induction false} DeadAppend(entries: seq<Entry>, e: Entry)
    ensures Dead(entries + [e]) == Dead(entries) + (if !e.live && !e.pending then 1 else 0)
    ensures EntriesOk(entries) && EntryOk(e) ==> EntriesOk(entries + [e])
  {
    assert (entries + [e])[..|entries|] == entries;
  }

  lemma {:induction false} MissesAppend(findings: seq<Finding>, f: Finding)
    ensures Misses(findings + [f])
            == Misses(findings) + (if f.kind == StrayRelease || f.kind == DoubleRelease then 1 else 0)
    ensures FindingsOk(findings) && FindingOk(f) ==> FindingsOk(findings + [f])
  {
    assert (findings + [f])[..|findings|] == findings;
  }

  lemma {:induction false} DeadUpdate(entries: seq<Entry>, i: nat, e: Entry)
    requires i < |entries|
    ensures Dead(entries[i := e]) + (if !entries[i].live && !entries[i].pending then 1 else 0)
            == Dead(entries) + (if !e.live && !e.pending then 1 else 0)
    ensures EntriesOk(entries) && EntryOk(e) ==> EntriesOk(entries[i := e])
  {
    var n := |entries| - 1;
    if i < n {
      DeadUpdate(entries[..n], i, e);
      assert entries[i := e][..n] == entries[..n][i := e];
    } else {
      assert entries[i := e][..n] == entries[..n];
    }
  }

  lemma {:induction false} StraysAndRest(findings: seq<Finding>, key: Key)
    requires FindingsOk(findings)
    ensures Misses(findings) == Misses(Rest(findings, key)) + |Strays(findings, key)|
    ensures FindingsOk(Rest(findings, key))
  {
    if findings != [] {
      var n := |findings| - 1;
      var rest, strays := Rest(findings[..n], key), Strays(findings[..n], key);
      StraysAndRest(findings[..n], key);
      MissesAppend(rest, findings[n]);
      assert rest + [] == rest && strays + [] == strays;
    }
  }

  // ---------- The primitive steps ----------

  lemma {:induction false} AddEntryCounts(m: Model, key: Key, origin: RecordKind, size: nat, site: Site)
    requires Sound(m)
    ensures Sound(AddEntry(m, key, origin, size, site))
            && Accounted(AddEntry(m, key, origin, size, site)) == Accounted(m)
  {
    DeadAppend(m.entries, Entry(key, origin, size, site, None, true, false));
  }

  lemma {:induction false} AddFindingCounts(m: Model, kind: FindingKind, key: Key, origin: RecordKind, site: Site,
                                            index: int)
    requires Sound(m) && -1 <= index < |m.entries|
    ensures Sound(AddFinding(m, kind, key, origin, site, index))
    ensures Accounted(AddFinding(m, kind, key, origin, site, index))
            == Accounted(m) + (if kind == StrayRelease || kind == DoubleRelease then 1 else 0)
  {
    var f := NewFinding(m, kind, key, origin, site, index);
    assert FindingOk(f);
    MissesAppend(m.findings, f);
  }

  lemma {:induction false} ReleaseAtCounts(m: Model, index: nat, site: Site)
    requires Sound(m) && index < |m.entries| && m.entries[index].live
    ensures Sound(ReleaseAt(m, index, site)) && Accounted(ReleaseAt(m, index, site)) == Accounted(m) + 1
  {
    assert EntryOk(m.entries[index]);
    DeadUpdate(m.entries, index, m.entries[index].(live := false, released := Some(site)));
  }

  lemma {:induction false} ReleaseCounts(m: Model, key: Key, origin: RecordKind, site: Site)
    requires Sound(m)
    ensures Sound(ReleaseEntry(m, key, origin, site))
            && Accounted(ReleaseEntry(m, key, origin, site)) == Accounted(m) + 1
  {
    var live, any := FindLatest(m.entries, key, true), FindLatest(m.entries, key, false);
    if live >= 0 {
      ReleaseAtCounts(m, live, site);
    } else {
      AddFindingCounts(m, if any < 0 then StrayRelease else DoubleRelease, key, origin, site, any);
    }
  }

  lemma {:induction false} AcquireCounts(m: Model, key: Key, origin: RecordKind, size: nat, site: Site)
    requires Sound(m)
    ensures Sound(AcquireEntry(m, key, origin, size, site))
            && Accounted(AcquireEntry(m, key, origin, size, site)) == Accounted(m)
  {
    var live := FindLatest(m.entries, key, true);
    var reported := if live >= 0 then AddFinding(m, DuplicateAcquire, key, origin, site, live) else m;
    if live >= 0 {
      AddFindingCounts(m, DuplicateAcquire, key, origin, site, live);
    }
    AddEntryCounts(reported, key, origin, size, site);
  }

  lemma {:induction false} ReleaseAllCounts(m: Model, strays: seq<Finding>)
    requires Sound(m)
    ensures Sound(ReleaseAll(m, strays)) && Accounted(ReleaseAll(m, strays)) == Accounted(m) + |strays|
  {
    if strays != [] {
      var last := strays[|strays| - 1];
      ReleaseAllCounts(m, strays[..|strays| - 1]);
      ReleaseCounts(ReleaseAll(m, strays[..|strays| - 1]), last.key, last.origin, last.site);
    }
  }

  lemma {:induction false} ReconcileCounts(m: Model, key: Key)
    requires Sound(m)
    ensures Sound(Reconcile(m, key)) && Accounted(Reconcile(m, key)) == Accounted(m)
  {
    StraysAndRest(m.findings, key);
    ReleaseAllCounts(m.(findings := Rest(m.findings, key)), Strays(m.findings, key));
  }

  lemma {:induction false} ForkCounts(m: Model, n: nat, parent: int, child: int, site: Site)
    requires Sound(m) && n <= |m.entries|
    ensures Sound(ForkFirst(m, n, parent, child, site))
            && Accounted(ForkFirst(m, n, parent, child, site)) == Accounted(m)
  {
    if n > 0 {
      ForkCounts(m, n - 1, parent, child, site);
      var before := ForkFirst(m, n - 1, parent, child, site);
      if Inherits(before, n - 1, parent, child) {
        var e := before.entries[n - 1];
        var key := e.key.(pid := child);
        AddEntryCounts(before, key, e.origin, e.size, site);
        ReconcileCounts(AddEntry(before, key, e.origin, e.size, site), key);
      }
    }
  }

  lemma {:induction false} ExecCounts(m: Model, key: Key, cloexec: bool, site: Site)
    requires Sound(m)
    ensures Sound(IngestExec(m, key, cloexec, site)) && Accounted(IngestExec(m, key, cloexec, site)) == Accounted(m)
  {
    var live := FindLatest(m.entries, key, true);
    if live >= 0 {
      if cloexec {
        var e := m.entries[live];
        var dead := e.(live := false, released := Some(site), pending := true);
        assert EntryOk(e);
        DeadUpdate(m.entries, live, dead);
        assert IngestExec(m, key, cloexec, site).entries == m.entries[live := dead];
      } else {
        AddFindingCounts(m, ExecInherit, key, ExecRecord, site, live);
      }
    }
  }

  lemma {:induction false} RestoredCounts(entries: seq<Entry>, pid: int)
    requires EntriesOk(entries)
    ensures Dead(RestoredAll(entries, pid)) == Dead(entries) && EntriesOk(RestoredAll(entries, pid))
  {
    if entries != [] {
      var n := |entries| - 1;
      RestoredCounts(entries[..n], pid);
      assert RestoredAll(entries, pid) == RestoredAll(entries[..n], pid) + [Restored(entries[n], pid)];
      DeadAppend(RestoredAll(entries[..n], pid), Restored(entries[n], pid));
    }
  }

  lemma {:induction false} KeptCounts(findings: seq<Finding>, pid: int)
    requires FindingsOk(findings)
    ensures Misses(KeptFindings(findings, pid)) == Misses(findings) && FindingsOk(KeptFindings(findings, pid))
  {
    if findings != [] {
      var n := |findings| - 1;
      var kept := KeptFindings(findings[..n], pid);
      KeptCounts(findings[..n], pid);
      MissesAppend(kept, findings[n]);
      assert FindingOk(findings[n]) && kept + [] == kept;
    }
  }

  lemma {:induction false} RollbackCounts(m: Model, pid: int)
    requires Sound(m)
    ensures Sound(Rollback(m, pid)) && Accounted(Rollback(m, pid)) == Accounted(m)
  {
    RestoredCounts(m.entries, pid);
    KeptCounts(m.findings, pid);
  }

  // ---------- Records and runs ----------

  /** The release operations a record performs: an explicit release, the first
      half of a replacement, and a reallocation that moves a live block. */
  function ReleaseOperations(m: Model, r: LogRecord): nat
    requires WellFormed(r)
  {
    match r.body
    case ResourceBody(op, cls, _, related) =>
      if IgnoredClass(cls.value) then 0
      else if op == Release then 1
      else if (op == Replace || op == Transfer) && related != None && related != Some("") then 1
      else 0
    case FdBody(kind, _) => if kind == Close then 1 else 0
    case AllocBody(kind, ptr, newPtr) =>
      if kind == Free && ptr.Some? then 1
      else if kind == Realloc && ptr.Some? && newPtr.Some?
              && FindLatest(m.entries, Key(r.pid, ALLOCATION_CLASS, ptr.value), true) >= 0 then 1
      else 0
    case _ => 0
  }

  lemma {:induction false} UseCounts(m: Model, key: Key, origin: RecordKind, site: Site)
    requires Sound(m)
    ensures Sound(UseEntry(m, key, origin, site)) && Accounted(UseEntry(m, key, origin, site)) == Accounted(m)
  {
    AddFindingCounts(m, InvalidUse, key, origin, site, FindLatest(m.entries, key, false));
  }

  lemma {:induction false} ReplaceCounts(m: Model, key: Key, related: Option<string>, origin: RecordKind, size: nat,
                                         site: Site)
    requires Sound(m)
    ensures Sound(ReplaceEntry(m, key, related, origin, size, site))
    ensures Accounted(ReplaceEntry(m, key, related, origin, size, site))
            == Accounted(m) + (if related != None && related != Some("") then 1 else 0)
  {
    if related == None || related == Some("") {
      AddFindingCounts(m, BadReplace, key, origin, site, FindLatest(m.entries, key, false));
    } else {
      ReleaseCounts(m, key, origin, site);
      AddEntryCounts(ReleaseEntry(m, key, origin, site), key.(id := related.value), origin, size, site);
    }
  }

  lemma {:induction false} ResourceCounts(m: Model, key: Key, op: ResourceKind, related: Option<string>,
                                          origin: RecordKind, size: nat, site: Site)
    requires Sound(m)
    ensures Sound(ResourceStep(m, key, op, related, origin, size, site))
    ensures Accounted(ResourceStep(m, key, op, related, origin, size, site))
            == Accounted(m) + (if op == ResourceKind.Release then 1
                               else if (op == Replace || op == Transfer) && related != None
                                 && related != Some("") then 1
                               else 0)
  {
    match op
    case Acquire => AcquireCounts(m, key, origin, size, site);
    case Release => ReleaseCounts(m, key, origin, site);
    case Use => UseCounts(m, key, origin, site);
    case _ => ReplaceCounts(m, key, related, origin, size, site);
  }

  lemma {:induction false} MoveCounts(m: Model, key: Key, newKey: Key, size: nat, site: Site)
    requires Sound(m)
    ensures Sound(ReallocLost(m, key, site)) && Accounted(ReallocLost(m, key, site)) == Accounted(m)
    ensures Sound(MoveBlock(m, key, newKey, size, site))
    ensures Accounted(MoveBlock(m, key, newKey, size, site))
            == Accounted(m) + (if FindLatest(m.entries, key, true) >= 0 then 1 else 0)
  {
    AddFindingCounts(m, BadReplace, key, AllocRecord, site, FindLatest(m.entries, key, false));
    if FindLatest(m.entries, key, true) >= 0 {
      ReleaseCounts(m, key, AllocRecord, site);
      AcquireCounts(ReleaseEntry(m, key, AllocRecord, site), newKey, AllocRecord, size, site);
    } else {
      AcquireCounts(ReallocLost(m, key, site), newKey, AllocRecord, size, site);
    }
  }

  lemma {:induction false} AllocationCounts(m: Model, r: LogRecord)
    requires Sound(m) && r.body.AllocBody?
    ensures Sound(Ingest(m, r)) && Accounted(Ingest(m, r)) == Accounted(m) + ReleaseOperations(m, r)
  {
    hide Sound, Accounted, FindLatest, AcquireEntry, ReleaseEntry;
    var site, ptr, newPtr := SiteOf(r), r.body.ptr, r.body.newPtr;
    var key := Key(r.pid, ALLOCATION_CLASS, if ptr.Some? then ptr.value else "");
    var newKey := Key(r.pid, ALLOCATION_CLASS, if newPtr.Some? then newPtr.value else "");
    match r.body.allocKind
    case Alloc => AcquireCounts(m, key, AllocRecord, r.size, site);
    case Free => ReleaseCounts(m, key, AllocRecord, site);
    case Realloc =>
      if ptr.None? {
        AcquireCounts(m, newKey, AllocRecord, r.size, site);
      } else {
        MoveCounts(m, key, newKey, r.size, site);
      }
  }

  lemma {:induction false} IngestCounts(m: Model, r: LogRecord)
    requires Sound(m) && WellFormed(r)
    ensures Sound(Ingest(m, r)) && Accounted(Ingest(m, r)) == Accounted(m) + ReleaseOperations(m, r)
  {
    var site := SiteOf(r);
    match r.body
    case ResourceBody(op, cls, id, related) =>
      ResourceCounts(m, Key(r.pid, cls.value, id.value), op, related, ResourceRecord, r.size, site);
    case FdBody(kind, fd) =>
      ResourceCounts(m, FdKey(r.pid, fd),
                     if kind == Open then ResourceKind.Acquire else ResourceKind.Release, None, FdRecord, 0, site);
    case AllocBody(kind, ptr, newPtr) => AllocationCounts(m, r);
    case ForkBody(child) => ForkCounts(m, |m.entries|, r.pid, child, site);
    case ExecBody(fd, cloexec) => ExecCounts(m, FdKey(r.pid, fd), cloexec, site);
    case ExecFailBody => RollbackCounts(m, r.pid);
  }

  function OperationsOf(rs: seq<LogRecord>): nat
    requires AllWellFormed(rs)
  {
    if rs == [] then 0
    else
      assert rs[|rs| - 1] in rs;
      OperationsOf(rs[..|rs| - 1]) + ReleaseOperations(Replay(EMPTY, rs[..|rs| - 1]), rs[|rs| - 1])
  }

  /** Conservation over every run, through replacement, reallocation, fork
      reconciliation and exec rollback. */
  lemma {:induction false} ReleasesAreAccounted(rs: seq<LogRecord>)
    requires AllWellFormed(rs)
    ensures Sound(Replay(EMPTY, rs)) && Accounted(Replay(EMPTY, rs)) == OperationsOf(rs)
  {
    if rs != [] {
      var n := |rs| - 1;
      assert rs[n] in rs;
      ReleasesAreAccounted(rs[..n]);
      IngestCounts(Replay(EMPTY, rs[..n]), rs[n]);
    }
  }
}
