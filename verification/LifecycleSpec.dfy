/** The resource lifecycle replay as functions on its two tables: the entries
    acquired so far and the findings. Capacity limits are added by Lifecycle. */
module LifecycleSpec {
  import opened Events
  import opened Numerals
  import opened Wrappers

  // ---------- Tables ----------

  datatype Key = Key(pid: int, cls: string, id: string)

  /** Where and when a record was made. */
  datatype Site = Site(context: nat, sequence: nat, ns: nat, nsKnown: bool, line: int, functionName: string,
                       fileName: string)

  datatype Entry = Entry(key: Key, origin: RecordKind, size: nat, acquired: Site, released: Option<Site>, live: bool,
                         pending: bool)

  datatype FindingKind = Leak | DoubleRelease | StrayRelease | BadReplace | DuplicateAcquire | ExecInherit | InvalidUse

  /** The part of an earlier site that a finding refers to. */
  datatype Prior = Prior(context: nat, sequence: nat, line: int, functionName: string, fileName: string)

  datatype Finding = Finding(kind: FindingKind, key: Key, origin: RecordKind, site: Site, prior: Option<Prior>,
                             pending: bool)

  datatype Model = Model(entries: seq<Entry>, findings: seq<Finding>)

  const EMPTY := Model([], [])

  // ---------- Records ----------

  /** Absent text is None; a pointer that denotes null is None. */
  datatype Body =
    | ResourceBody(op: ResourceKind, cls: Option<string>, id: Option<string>, related: Option<string>)
    | FdBody(fdKind: FdKind, fd: int)
    | AllocBody(allocKind: AllocKind, ptr: Option<string>, newPtr: Option<string>)
    | ForkBody(child: int)
    | ExecBody(execFd: int, cloexec: bool)
    | ExecFailBody
    | OtherBody

  datatype LogRecord = LogRecord(
    version: int, runId: Option<string>, pid: int, context: nat, sequence: nat, ns: nat, nsKnown: bool, line: int,
    functionName: Option<string>, fileName: Option<string>, size: nat, body: Body)

  function OrUnknown(text: Option<string>): string {
    match text
    case None => "?"
    case Some(s) => s
  }

  function SiteOf(r: LogRecord): Site {
    Site(r.context, r.sequence, r.ns, r.nsKnown, r.line, OrUnknown(r.functionName), OrUnknown(r.fileName))
  }

  function FdText(fd: int): string {
    if fd < 0 then "-" + Decimal(-fd) else Decimal(fd)
  }

  const FD_CLASS := "fd"
  const ALLOCATION_CLASS := "allocation"

  function FdKey(pid: int, fd: int): Key {
    Key(pid, FD_CLASS, FdText(fd))
  }

  /** Classes that only the synchronization analysis looks at. */
  predicate IgnoredClass(cls: string) {
    cls == "blocking-operation" || cls == "pthread-terminal-attempt"
  }

  // ---------- Primitive steps ----------

  /** The newest entry of a key, or -1. */
  function FindLatest(entries: seq<Entry>, key: Key, liveOnly: bool): (index: int)
    ensures -1 <= index < |entries|
    ensures index >= 0 ==> entries[index].key == key && (liveOnly ==> entries[index].live)
  {
    if entries == [] then -1
    else
      var last := entries[|entries| - 1];
      if last.key == key && (!liveOnly || last.live) then |entries| - 1
      else FindLatest(entries[..|entries| - 1], key, liveOnly)
  }

  /** The release of an entry if it has one with a sequence, else its acquisition. */
  function PriorOf(e: Entry): Prior {
    var s := if e.released.Some? && e.released.value.sequence != 0 then e.released.value else e.acquired;
    Prior(s.context, s.sequence, s.line, s.functionName, s.fileName)
  }

  function AddEntry(m: Model, key: Key, origin: RecordKind, size: nat, site: Site): Model {
    m.(entries := m.entries + [Entry(key, origin, size, site, None, true, false)])
  }

  /** A finding about the entry at `index`, or about no entry if it is -1. */
  function NewFinding(m: Model, kind: FindingKind, key: Key, origin: RecordKind, site: Site, index: int): Finding
    requires -1 <= index < |m.entries|
  {
    if index < 0 then Finding(kind, key, origin, site, None, kind == ExecInherit)
    else Finding(kind, key, m.entries[index].origin, site, Some(PriorOf(m.entries[index])), kind == ExecInherit)
  }

  function AddFinding(m: Model, kind: FindingKind, key: Key, origin: RecordKind, site: Site, index: int): Model
    requires -1 <= index < |m.entries|
  {
    m.(findings := m.findings + [NewFinding(m, kind, key, origin, site, index)])
  }

  function ReleaseAt(m: Model, index: nat, site: Site): Model
    requires index < |m.entries|
  {
    m.(entries := m.entries[index := m.entries[index].(live := false, released := Some(site))])
  }

  /** release_entry: the newest live entry dies; without one the release is a
      double release if the key was ever acquired and a stray one otherwise. */
  function ReleaseEntry(m: Model, key: Key, origin: RecordKind, site: Site): Model {
    var live := FindLatest(m.entries, key, true);
    if live >= 0 then ReleaseAt(m, live, site)
    else
      var any := FindLatest(m.entries, key, false);
      AddFinding(m, if any < 0 then StrayRelease else DoubleRelease, key, origin, site, any)
  }

  function AcquireEntry(m: Model, key: Key, origin: RecordKind, size: nat, site: Site): Model {
    var live := FindLatest(m.entries, key, true);
    var reported := if live >= 0 then AddFinding(m, DuplicateAcquire, key, origin, site, live) else m;
    AddEntry(reported, key, origin, size, site)
  }

  // ---------- Records that touch one process ----------

  function UseEntry(m: Model, key: Key, origin: RecordKind, site: Site): Model {
    if FindLatest(m.entries, key, true) >= 0 then m
    else AddFinding(m, InvalidUse, key, origin, site, FindLatest(m.entries, key, false))
  }

  /** Replacement and transfer: a release of the key and an entry for the related one. */
  function ReplaceEntry(m: Model, key: Key, related: Option<string>, origin: RecordKind, size: nat, site: Site): Model {
    if related == None || related == Some("") then
      AddFinding(m, BadReplace, key, origin, site, FindLatest(m.entries, key, false))
    else
      AddEntry(ReleaseEntry(m, key, origin, site), key.(id := related.value), origin, size, site)
  }

  function ResourceStep(m: Model, key: Key, op: ResourceKind, related: Option<string>, origin: RecordKind,
                        size: nat, site: Site): Model {
    match op
    case Acquire => AcquireEntry(m, key, origin, size, site)
    case Release => ReleaseEntry(m, key, origin, site)
    case Use => UseEntry(m, key, origin, site)
    case _ => ReplaceEntry(m, key, related, origin, size, site)
  }

  function IngestResource(m: Model, key: Key, op: ResourceKind, related: Option<string>, origin: RecordKind,
                          size: nat, site: Site): Model {
    if IgnoredClass(key.cls) then m else ResourceStep(m, key, op, related, origin, size, site)
  }

  /** A reallocation without a result: an unknown block is reported, a known one stays. */
  function ReallocLost(m: Model, key: Key, site: Site): Model {
    if FindLatest(m.entries, key, true) >= 0 then m
    else AddFinding(m, BadReplace, key, AllocRecord, site, FindLatest(m.entries, key, false))
  }

  /** A reallocation with a result: the old block is released or reported, the new one acquired. */
  function MoveBlock(m: Model, key: Key, newKey: Key, size: nat, site: Site): Model {
    AcquireEntry(LeaveBlock(m, key, site), newKey, AllocRecord, size, site)
  }

  function LeaveBlock(m: Model, key: Key, site: Site): Model {
    if FindLatest(m.entries, key, true) >= 0 then ReleaseEntry(m, key, AllocRecord, site) else ReallocLost(m, key, site)
  }

  function IngestAllocation(m: Model, pid: int, kind: AllocKind, ptr: Option<string>, newPtr: Option<string>,
                            size: nat, site: Site): Model {
    var key := Key(pid, ALLOCATION_CLASS, if ptr.Some? then ptr.value else "");
    var newKey := Key(pid, ALLOCATION_CLASS, if newPtr.Some? then newPtr.value else "");
    match kind
    case Alloc => if ptr.None? then m else AcquireEntry(m, key, AllocRecord, size, site)
    case Free => if ptr.None? then m else ReleaseEntry(m, key, AllocRecord, site)
    case Realloc =>
      if ptr.None? then (if newPtr.None? then m else AcquireEntry(m, newKey, AllocRecord, size, site))
      else if newPtr.None? then ReallocLost(m, key, site)
      else MoveBlock(m, key, newKey, size, site)
  }

  // ---------- Fork ----------

  predicate IsStray(f: Finding, key: Key) {
    f.kind == StrayRelease && f.key == key
  }

  /** The stray releases of a key, oldest first, and all other findings. */
  function Strays(findings: seq<Finding>, key: Key): seq<Finding> {
    if findings == [] then []
    else
      var last := findings[|findings| - 1];
      Strays(findings[..|findings| - 1], key) + (if IsStray(last, key) then [last] else [])
  }

  function Rest(findings: seq<Finding>, key: Key): seq<Finding> {
    if findings == [] then []
    else
      var last := findings[|findings| - 1];
      Rest(findings[..|findings| - 1], key) + (if IsStray(last, key) then [] else [last])
  }

  /** Replays stray releases as releases, in order. */
  function ReleaseAll(m: Model, strays: seq<Finding>): Model {
    if strays == [] then m
    else
      var last := strays[|strays| - 1];
      ReleaseEntry(ReleaseAll(m, strays[..|strays| - 1]), last.key, last.origin, last.site)
  }

  /** Reconciliation takes every stray release of the key out of the findings
      and replays them. */
  function Reconcile(m: Model, key: Key): Model {
    ReleaseAll(m.(findings := Rest(m.findings, key)), Strays(m.findings, key))
  }

  /** The longest identifier that fits the fork's copy. */
  const IDENTIFIER_LIMIT := 31

  /** Entry i of the parent is a live descriptor the child has no entry for. */
  predicate Inherits(m: Model, i: nat, parent: int, child: int)
    requires i < |m.entries|
  {
    var e := m.entries[i];
    e.key.pid == parent && e.live && e.key.cls == FD_CLASS && FindLatest(m.entries, e.key.(pid := child), false) < 0
  }

  function ForkStep(m: Model, i: nat, parent: int, child: int, site: Site): Model
    requires i < |m.entries|
  {
    if !Inherits(m, i, parent, child) then m
    else
      var e := m.entries[i];
      var key := e.key.(pid := child);
      Reconcile(AddEntry(m, key, e.origin, e.size, site), key)
  }

  lemma {:induction false} ReleaseAllLength(m: Model, strays: seq<Finding>)
    ensures |ReleaseAll(m, strays).entries| == |m.entries|
  {
    if strays != [] {
      ReleaseAllLength(m, strays[..|strays| - 1]);
    }
  }

  /** The first n entries are offered to the child, one after the other. */
  function ForkFirst(m: Model, n: nat, parent: int, child: int, site: Site): (r: Model)
    requires n <= |m.entries|
    ensures |r.entries| >= |m.entries|
  {
    if n == 0 then m
    else
      var before := ForkFirst(m, n - 1, parent, child, site);
      ForkStepLength(before, n - 1, parent, child, site);
      ForkStep(before, n - 1, parent, child, site)
  }

  lemma {:induction false} ForkStepLength(m: Model, i: nat, parent: int, child: int, site: Site)
    requires i < |m.entries|
    ensures |ForkStep(m, i, parent, child, site).entries| >= |m.entries|
  {
    if Inherits(m, i, parent, child) {
      var key := m.entries[i].key.(pid := child);
      var m1 := AddEntry(m, key, m.entries[i].origin, m.entries[i].size, site);
      ReleaseAllLength(m1.(findings := Rest(m1.findings, key)), Strays(m1.findings, key));
    }
  }

  function IngestFork(m: Model, parent: int, child: int, site: Site): Model {
    if parent < 0 || child < 0 || parent == child then m else ForkFirst(m, |m.entries|, parent, child, site)
  }

  // ---------- Exec ----------

  /** A close-on-exec descriptor dies provisionally; another live descriptor is
      reported provisionally. */
  function IngestExec(m: Model, key: Key, cloexec: bool, site: Site): Model {
    var live := FindLatest(m.entries, key, true);
    if live < 0 then m
    else if !cloexec then AddFinding(m, ExecInherit, key, ExecRecord, site, live)
    else
      var r := ReleaseAt(m, live, site);
      r.(entries := r.entries[live := r.entries[live].(pending := true)])
  }

  function Restored(e: Entry, pid: int): Entry {
    if e.key.pid == pid && e.pending then e.(released := None, live := true, pending := false) else e
  }

  function RestoredAll(entries: seq<Entry>, pid: int): seq<Entry> {
    seq(|entries|, i requires 0 <= i < |entries| => Restored(entries[i], pid))
  }

  function KeptFindings(findings: seq<Finding>, pid: int): seq<Finding> {
    if findings == [] then []
    else
      var last := findings[|findings| - 1];
      KeptFindings(findings[..|findings| - 1], pid) + (if last.key.pid == pid && last.pending then [] else [last])
  }

  function Rollback(m: Model, pid: int): Model {
    Model(RestoredAll(m.entries, pid), KeptFindings(m.findings, pid))
  }

  // ---------- The replay ----------

  /** Whether a record of this shape is replayed at all. */
  predicate WellFormed(r: LogRecord) {
    match r.body
    case ResourceBody(_, cls, id, _) => cls.Some? && id.Some?
    case OtherBody => false
    case _ => true
  }

  function Ingest(m: Model, r: LogRecord): Model
    requires WellFormed(r)
  {
    var site := SiteOf(r);
    match r.body
    case ResourceBody(op, cls, id, related) =>
      IngestResource(m, Key(r.pid, cls.value, id.value), op, related, ResourceRecord, r.size, site)
    case FdBody(kind, fd) =>
      IngestResource(m, FdKey(r.pid, fd),
                     if kind == Open then ResourceKind.Acquire else ResourceKind.Release, None, FdRecord, 0, site)
    case AllocBody(kind, ptr, newPtr) => IngestAllocation(m, r.pid, kind, ptr, newPtr, r.size, site)
    case ForkBody(child) => IngestFork(m, r.pid, child, site)
    case ExecBody(fd, cloexec) => IngestExec(m, FdKey(r.pid, fd), cloexec, site)
    case ExecFailBody => Rollback(m, r.pid)
  }

  predicate AllWellFormed(rs: seq<LogRecord>) {
    forall r :: r in rs ==> WellFormed(r)
  }

  function Replay(m: Model, rs: seq<LogRecord>): Model
    requires AllWellFormed(rs)
  {
    if rs == [] then m
    else
      assert rs[|rs| - 1] in rs;
      Ingest(Replay(m, rs[..|rs| - 1]), rs[|rs| - 1])
  }

  // ---------- Finish ----------

  function LeakOf(e: Entry): Finding {
    Finding(Leak, e.key, e.origin, e.acquired.(ns := 0, nsKnown := false), None, false)
  }

  function Leaks(entries: seq<Entry>): seq<Finding> {
    if entries == [] then []
    else
      var last := entries[|entries| - 1];
      Leaks(entries[..|entries| - 1]) + (if last.live then [LeakOf(last)] else [])
  }

  /** Live entries become leaks; nothing stays provisional. */
  function Finish(m: Model): Model {
    var all := m.findings + Leaks(m.entries);
    Model(seq(|m.entries|, i requires 0 <= i < |m.entries| => m.entries[i].(pending := false)),
          seq(|all|, i requires 0 <= i < |all| => all[i].(pending := false)))
  }
}
