/** What is provisional for one process stays provisional through the records of
    all others. */
module LifecyclePending {
  import opened Events
  import opened Wrappers
  import opened LifecycleSpec

  /** Entries of the process stay where they are and stay provisional. */
  ghost predicate EntriesStay(a: seq<Entry>, b: seq<Entry>, pid: int) {
    |a| <= |b| && forall i :: 0 <= i < |a| ==> EntryStays(a[i], b[i], pid)
  }

  predicate EntryStays(e: Entry, f: Entry, pid: int) {
    f.key == e.key && (e.key.pid == pid && e.pending ==> f.pending)
  }

  /** Provisional findings of the process are never strays, so none is taken. */
  ghost predicate FindingsStay(a: seq<Finding>, b: seq<Finding>, pid: int) {
    forall f :: f in a && f.key.pid == pid && f.pending && f.kind != StrayRelease ==> f in b
  }

  ghost predicate Stays(a: Model, b: Model, pid: int) {
    EntriesStay(a.entries, b.entries, pid) && FindingsStay(a.findings, b.findings, pid)
  }

  lemma {:induction false} StaysTrans(a: Model, b: Model, c: Model, pid: int)
    requires Stays(a, b, pid) && Stays(b, c, pid)
    ensures Stays(a, c, pid)
  {
    forall i | 0 <= i < |a.entries|
      ensures EntryStays(a.entries[i], c.entries[i], pid)
    {
      assert EntryStays(a.entries[i], b.entries[i], pid) && EntryStays(b.entries[i], c.entries[i], pid);
    }
  }

  // ---------- Primitive steps ----------

  lemma {:induction false} ReleaseStays(m: Model, key: Key, origin: RecordKind, site: Site, pid: int)
    ensures Stays(m, ReleaseEntry(m, key, origin, site), pid)
  {}

  lemma {:induction false} AcquireStays(m: Model, key: Key, origin: RecordKind, size: nat, site: Site, pid: int)
    ensures Stays(m, AcquireEntry(m, key, origin, size, site), pid)
  {}

  lemma {:induction false} ReleaseAllStays(m: Model, strays: seq<Finding>, pid: int)
    ensures Stays(m, ReleaseAll(m, strays), pid)
  {
    if strays != [] {
      var last, before := strays[|strays| - 1], ReleaseAll(m, strays[..|strays| - 1]);
      ReleaseAllStays(m, strays[..|strays| - 1], pid);
      ReleaseStays(before, last.key, last.origin, last.site, pid);
      StaysTrans(m, before, ReleaseAll(m, strays), pid);
    }
  }

  lemma {:induction false} RestHasOthers(findings: seq<Finding>, key: Key)
    ensures forall f :: f in findings && !IsStray(f, key) ==> f in Rest(findings, key)
  {
    if findings != [] {
      RestHasOthers(findings[..|findings| - 1], key);
    }
  }

  lemma {:induction false} ReconcileStays(m: Model, key: Key, pid: int)
    ensures Stays(m, Reconcile(m, key), pid)
  {
    var quiet := m.(findings := Rest(m.findings, key));
    RestHasOthers(m.findings, key);
    ReleaseAllStays(quiet, Strays(m.findings, key), pid);
    StaysTrans(m, quiet, Reconcile(m, key), pid);
  }

  lemma {:induction false} ForkStepStays(m: Model, i: nat, parent: int, child: int, site: Site, pid: int)
    requires i < |m.entries|
    ensures Stays(m, ForkStep(m, i, parent, child, site), pid)
  {
    if Inherits(m, i, parent, child) {
      var e := m.entries[i];
      var key := e.key.(pid := child);
      var added := AddEntry(m, key, e.origin, e.size, site);
      ReconcileStays(added, key, pid);
      StaysTrans(m, added, Reconcile(added, key), pid);
    }
  }

  lemma {:induction false} ForkStays(m: Model, n: nat, parent: int, child: int, site: Site, pid: int)
    requires n <= |m.entries|
    ensures Stays(m, ForkFirst(m, n, parent, child, site), pid)
  {
    hide ForkStep, Stays;
    StaysSame(m, pid);
    if n > 0 {
      var before := ForkFirst(m, n - 1, parent, child, site);
      ForkStays(m, n - 1, parent, child, site, pid);
      ForkStepStays(before, n - 1, parent, child, site, pid);
      StaysTrans(m, before, ForkStep(before, n - 1, parent, child, site), pid);
    }
  }

  lemma {:induction false} KeptHasOthers(findings: seq<Finding>, owner: int)
    ensures forall f :: f in findings && f.key.pid != owner ==> f in KeptFindings(findings, owner)
  {
    if findings != [] {
      KeptHasOthers(findings[..|findings| - 1], owner);
    }
  }

  // ---------- Records ----------

  lemma {:induction false} UseStays(m: Model, key: Key, origin: RecordKind, site: Site, pid: int)
    ensures Stays(m, UseEntry(m, key, origin, site), pid)
  {}

  /** Adds an entry after some step. */
  lemma {:induction false} ThenAddStays(m: Model, step: Model, key: Key, origin: RecordKind, size: nat, site: Site,
                                        pid: int)
    requires Stays(m, step, pid)
    ensures Stays(m, AddEntry(step, key, origin, size, site), pid)
  {
    StaysTrans(m, step, AddEntry(step, key, origin, size, site), pid);
  }

  lemma {:induction false} ReplaceStays(m: Model, key: Key, related: Option<string>, origin: RecordKind, size: nat,
                                        site: Site, pid: int)
    ensures Stays(m, ReplaceEntry(m, key, related, origin, size, site), pid)
  {
    if related != None && related != Some("") {
      ReleaseStays(m, key, origin, site, pid);
      ThenAddStays(m, ReleaseEntry(m, key, origin, site), key.(id := related.value), origin, size, site, pid);
    }
  }

  lemma {:induction false} ResourceStays(m: Model, key: Key, op: ResourceKind, related: Option<string>,
                                         origin: RecordKind, size: nat, site: Site, pid: int)
    ensures Stays(m, ResourceStep(m, key, op, related, origin, size, site), pid)
  {
    match op
    case Acquire => AcquireStays(m, key, origin, size, site, pid);
    case Release => ReleaseStays(m, key, origin, site, pid);
    case Use => UseStays(m, key, origin, site, pid);
    case _ => ReplaceStays(m, key, related, origin, size, site, pid);
  }

  /** Acquires `key` after some step. */
  lemma {:induction false} ThenAcquireStays(m: Model, step: Model, key: Key, size: nat, site: Site, pid: int)
    requires Stays(m, step, pid)
    ensures Stays(m, AcquireEntry(step, key, AllocRecord, size, site), pid)
  {
    AcquireStays(step, key, AllocRecord, size, site, pid);
    StaysTrans(m, step, AcquireEntry(step, key, AllocRecord, size, site), pid);
  }

  lemma {:induction false} LostStays(m: Model, key: Key, site: Site, pid: int)
    ensures Stays(m, ReallocLost(m, key, site), pid)
  {}

  lemma {:induction false} MoveStays(m: Model, key: Key, newKey: Key, size: nat, site: Site, pid: int)
    ensures Stays(m, MoveBlock(m, key, newKey, size, site), pid)
  {
    if FindLatest(m.entries, key, true) >= 0 {
      ReleaseStays(m, key, AllocRecord, site, pid);
      ThenAcquireStays(m, ReleaseEntry(m, key, AllocRecord, site), newKey, size, site, pid);
    } else {
      LostStays(m, key, site, pid);
      ThenAcquireStays(m, ReallocLost(m, key, site), newKey, size, site, pid);
    }
  }

  lemma {:induction false} StaysSame(m: Model, pid: int)
    ensures Stays(m, m, pid)
  {}

  lemma {:induction false} AllocationStays(m: Model, owner: int, kind: AllocKind, ptr: Option<string>,
                                           newPtr: Option<string>, size: nat, site: Site, pid: int)
    ensures Stays(m, IngestAllocation(m, owner, kind, ptr, newPtr, size, site), pid)
  {
    var key := Key(owner, ALLOCATION_CLASS, if ptr.Some? then ptr.value else "");
    var newKey := Key(owner, ALLOCATION_CLASS, if newPtr.Some? then newPtr.value else "");
    StaysSame(m, pid);
    match kind
    case Alloc => AcquireStays(m, key, AllocRecord, size, site, pid);
    case Free => ReleaseStays(m, key, AllocRecord, site, pid);
    case Realloc =>
      if ptr.None? {
        AcquireStays(m, newKey, AllocRecord, size, site, pid);
      } else {
        LostStays(m, key, site, pid);
        MoveStays(m, key, newKey, size, site, pid);
      }
  }

  lemma {:induction false} RollbackStays(m: Model, owner: int, pid: int)
    requires owner != pid
    ensures Stays(m, Rollback(m, owner), pid)
  {
    KeptHasOthers(m.findings, owner);
  }

  lemma {:induction false} ExecStays(m: Model, key: Key, cloexec: bool, site: Site, pid: int)
    requires key.pid != pid
    ensures Stays(m, IngestExec(m, key, cloexec, site), pid)
  {}

  lemma {:induction false} IngestStays(m: Model, r: LogRecord, pid: int)
    requires WellFormed(r) && r.pid != pid
    ensures Stays(m, Ingest(m, r), pid)
  {
    var site := SiteOf(r);
    StaysSame(m, pid);
    match r.body
    case ResourceBody(op, cls, id, related) =>
      ResourceStays(m, Key(r.pid, cls.value, id.value), op, related, ResourceRecord, r.size, site, pid);
    case FdBody(kind, fd) =>
      ResourceStays(m, FdKey(r.pid, fd), if kind == Open then ResourceKind.Acquire else ResourceKind.Release,
                    None, FdRecord, 0, site, pid);
    case AllocBody(kind, ptr, newPtr) => AllocationStays(m, r.pid, kind, ptr, newPtr, r.size, site, pid);
    case ForkBody(child) => ForkStays(m, |m.entries|, r.pid, child, site, pid);
    case ExecBody(fd, cloexec) => ExecStays(m, FdKey(r.pid, fd), cloexec, site, pid);
    case ExecFailBody => RollbackStays(m, r.pid, pid);
  }

  /** Through any number of records of other processes. */
  lemma {:induction false} ReplayStays(m: Model, rs: seq<LogRecord>, pid: int)
    requires AllWellFormed(rs) && forall r :: r in rs ==> r.pid != pid
    ensures Stays(m, Replay(m, rs), pid)
  {
    if rs != [] {
      var n := |rs| - 1;
      assert rs[n] in rs;
      ReplayStays(m, rs[..n], pid);
      IngestStays(Replay(m, rs[..n]), rs[n], pid);
      StaysTrans(m, Replay(m, rs[..n]), Replay(m, rs), pid);
    }
  }
}
