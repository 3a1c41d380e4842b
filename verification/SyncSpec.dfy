/** The meaning of the synchronization analysis: locks held and waits begun as
    plain lists, and the findings every event and the end of the run add. */
module SyncSpec {
  import opened Events
  import opened Numerals
  import opened Graphs
  import opened SyncReach

  // ---------- Events ----------

  /** Threads and resources share one name space: a process and a text. */
  datatype Name = NoName | Name(pid: int, text: string)

  datatype SyncOp =
    | DestroyMutex | AttemptTerminal | EndJoinable | BlockingOperation
    | AcquireLock | ReleaseLock
    | BeginJoin | EndJoin | BeginCondition | BeginWait | EndWait
    | Ignored

  datatype SyncEvent = SyncEvent(op: SyncOp, thread: Name, resource: Name, related: Name)

  /** The part of an identity before the first '@'. */
  function BeforeAt(identity: string): (text: string)
    ensures text <= identity && '@' !in text
    ensures |text| < |identity| ==> identity[|text|] == '@'
  {
    if identity == "" || identity[0] == '@' then "" else [identity[0]] + BeforeAt(identity[1..])
  }

  function ThreadName(node: Node): Name {
    Name(node.pid, Decimal(node.context))
  }

  /** Threads of one name are execution contexts of one process. */
  lemma {:induction false} ThreadNamesAreContexts(a: Node, b: Node)
    ensures ThreadName(a) == ThreadName(b) <==> SameContext(a, b)
  {
    if Decimal(a.context) == Decimal(b.context) {
      DecimalInjective(a.context, b.context);
    }
  }

  function ResourceName(node: Node, identity: string): Name {
    Name(node.pid, BeforeAt(identity))
  }

  predicate HeldClass(c: string) {
    c == "pthread-mutex-held" || c == "pthread-rwlock-held"
  }

  predicate SynchronizationClass(c: string) {
    HeldClass(c) || c == "pthread-mutex-wait" || c == "pthread-rwlock-read-wait" || c == "pthread-rwlock-write-wait"
    || c == "pthread-condition-wait" || c == "pthread-join-wait" || c == "pthread-mutex"
    || c == "pthread-terminal-attempt" || c == "pthread-joinable-thread" || c == "blocking-operation"
  }

  predicate IsSyncNode(node: Node) {
    node.kind == ResourceRecord && SynchronizationClass(node.resourceClass)
  }

  function Operation(c: string, kind: ResourceKind): SyncOp {
    if c == "pthread-mutex" then (if kind == Release then DestroyMutex else Ignored)
    else if c == "pthread-terminal-attempt" then AttemptTerminal
    else if c == "pthread-joinable-thread" then (if kind == Release then EndJoinable else Ignored)
    else if c == "blocking-operation" then BlockingOperation
    else if HeldClass(c) then
      (if kind == Acquire then AcquireLock else if kind == Release then ReleaseLock else Ignored)
    else if kind == Acquire then
      (if c == "pthread-join-wait" then BeginJoin
       else if c == "pthread-condition-wait" then BeginCondition else BeginWait)
    else if kind == Release then (if c == "pthread-join-wait" then EndJoin else EndWait)
    else Ignored
  }

  /** Nodes of other kinds and classes are events the analysis ignores. */
  function EventOf(node: Node): SyncEvent {
    var op := if IsSyncNode(node) then Operation(node.resourceClass, node.resourceKind) else Ignored;
    SyncEvent(op, ThreadName(node), ResourceName(node, node.resourceId), ResourceName(node, node.relatedId))
  }

  function EventsOf(order: seq<Node>): seq<SyncEvent> {
    seq(|order|, i requires 0 <= i < |order| => EventOf(order[i]))
  }

  // ---------- State ----------

  datatype SyncRule =
    | LockOrderCycle | WaitCycle | JoinCycle | ReleaseOrder | JoinWhileHeld
    | BusyMutexDestroyed | ConsumedTwice | ConditionMutexes | BlockedWhileHeld

  datatype SyncFinding = SyncFinding(rule: SyncRule, from: Name, to: Name, at: nat)

  datatype SyncItem = SyncItem(join: bool, thread: Name, resource: Name, target: Name, at: nat)

  /** Holds and waits in order of their beginning, ended ones left out. */
  datatype SyncState = SyncState(
    holds: seq<SyncItem>,
    waits: seq<SyncItem>,
    terminated: seq<SyncItem>,
    lockEdges: seq<SyncEdge<Name>>,
    findings: seq<SyncFinding>)

  const EMPTY := SyncState([], [], [], [], [])

  predicate SameFinding(f: SyncFinding, rule: SyncRule, from: Name, to: Name) {
    f.rule == rule && f.from == from && f.to == to
  }

  ghost predicate Reported(fs: seq<SyncFinding>, rule: SyncRule, from: Name, to: Name) {
    exists f :: f in fs && SameFinding(f, rule, from, to)
  }

  ghost predicate HasRule(fs: seq<SyncFinding>, rule: SyncRule) {
    exists f :: f in fs && f.rule == rule
  }

  /** A finding with the same rule and evidence is kept only once. */
  ghost function Report(fs: seq<SyncFinding>, rule: SyncRule, from: Name, to: Name, at: nat): seq<SyncFinding> {
    if Reported(fs, rule, from, to) then fs else fs + [SyncFinding(rule, from, to, at)]
  }

  ghost function ReportEach(fs: seq<SyncFinding>, rule: SyncRule, pairs: seq<(Name, Name)>, at: nat): seq<SyncFinding> {
    if pairs == [] then fs
    else
      var last := pairs[|pairs| - 1];
      Report(ReportEach(fs, rule, pairs[..|pairs| - 1], at), rule, last.0, last.1, at)
  }

  // ---------- Selections ----------

  /** The locks a thread holds, oldest first. */
  function Stack(holds: seq<SyncItem>, thread: Name): seq<Name> {
    if holds == [] then []
    else
      var last := holds[|holds| - 1];
      Stack(holds[..|holds| - 1], thread) + (if last.thread == thread then [last.resource] else [])
  }

  predicate Matches(item: SyncItem, thread: Name, resource: Name) {
    item.thread == thread && item.resource == resource
  }

  function RemoveLastMatch(items: seq<SyncItem>, thread: Name, resource: Name): seq<SyncItem> {
    if items == [] then []
    else
      var last := items[|items| - 1];
      if Matches(last, thread, resource) then items[..|items| - 1]
      else RemoveLastMatch(items[..|items| - 1], thread, resource) + [last]
  }

  function HoldersOf(holds: seq<SyncItem>, resource: Name): seq<(Name, Name)> {
    if holds == [] then []
    else
      var last := holds[|holds| - 1];
      HoldersOf(holds[..|holds| - 1], resource) + (if last.resource == resource then [(resource, last.thread)] else [])
  }

  function WaitersOn(waits: seq<SyncItem>, resource: Name): seq<(Name, Name)> {
    if waits == [] then []
    else
      var last := waits[|waits| - 1];
      WaitersOn(waits[..|waits| - 1], resource)
      + (if last.resource == resource || last.target == resource then [(resource, last.thread)] else [])
  }

  function OtherMutexWaits(waits: seq<SyncItem>, resource: Name, target: Name): seq<(Name, Name)> {
    if waits == [] then []
    else
      var last := waits[|waits| - 1];
      OtherMutexWaits(waits[..|waits| - 1], resource, target)
      + (if last.resource == resource && last.target != target then [(resource, target)] else [])
  }

  /** The held locks from which the new lock would close a cycle. */
  ghost function ClosingLocks(g: set<(Name, Name)>, stack: seq<Name>, resource: Name): seq<(Name, Name)> {
    if stack == [] then []
    else
      var last := stack[|stack| - 1];
      ClosingLocks(g, stack[..|stack| - 1], resource)
      + (if last != resource && Reaches(g, resource, last) then [(last, resource)] else [])
  }

  function NewLockEdges(stack: seq<Name>, resource: Name): seq<SyncEdge<Name>> {
    if stack == [] then []
    else
      var last := stack[|stack| - 1];
      NewLockEdges(stack[..|stack| - 1], resource) + (if last != resource then [SyncEdge(last, resource)] else [])
  }

  // ---------- The steps ----------

  ghost function TopMismatch(stack: seq<Name>, resource: Name): seq<(Name, Name)> {
    if stack != [] && stack[|stack| - 1] != resource then [(stack[|stack| - 1], resource)] else []
  }

  ghost function TopOf(stack: seq<Name>, resource: Name): seq<(Name, Name)> {
    if stack != [] then [(stack[|stack| - 1], resource)] else []
  }

  ghost function Step(s: SyncState, e: SyncEvent, at: nat): SyncState {
    var stack := Stack(s.holds, e.thread);
    match e.op
    case DestroyMutex =>
      s.(findings := ReportEach(s.findings, BusyMutexDestroyed,
                                HoldersOf(s.holds, e.resource) + WaitersOn(s.waits, e.resource), at))
    case AttemptTerminal =>
      s.(findings := ReportEach(s.findings, ConsumedTwice, HoldersOf(s.terminated, e.resource), at))
    case EndJoinable =>
      s.(terminated := s.terminated + [SyncItem(false, e.thread, e.resource, NoName, at)])
    case BlockingOperation =>
      s.(findings := ReportEach(s.findings, BlockedWhileHeld, TopOf(stack, e.resource), at))
    case AcquireLock =>
      s.(findings := ReportEach(s.findings, LockOrderCycle, ClosingLocks(EdgeSet(s.lockEdges), stack, e.resource), at),
         lockEdges := s.lockEdges + NewLockEdges(stack, e.resource),
         holds := s.holds + [SyncItem(false, e.thread, e.resource, NoName, at)])
    case ReleaseLock =>
      s.(findings := ReportEach(s.findings, ReleaseOrder, TopMismatch(stack, e.resource), at),
         holds := RemoveLastMatch(s.holds, e.thread, e.resource))
    case BeginJoin =>
      s.(findings := ReportEach(s.findings, JoinWhileHeld, TopOf(stack, e.resource), at),
         waits := s.waits + [SyncItem(true, e.resource, e.resource, e.related, at)])
    case BeginCondition =>
      s.(findings := ReportEach(s.findings, ConditionMutexes, OtherMutexWaits(s.waits, e.resource, e.related), at),
         waits := s.waits + [SyncItem(false, e.thread, e.resource, e.related, at)])
    case BeginWait => s.(waits := s.waits + [SyncItem(false, e.thread, e.resource, NoName, at)])
    case EndJoin => s.(waits := RemoveLastMatch(s.waits, e.resource, e.resource))
    case EndWait => s.(waits := RemoveLastMatch(s.waits, e.thread, e.resource))
    case Ignored => s
  }

  ghost function Run(events: seq<SyncEvent>): SyncState {
    if events == [] then EMPTY
    else Step(Run(events[..|events| - 1]), events[|events| - 1], |events| - 1)
  }

  // ---------- The end of the run ----------

  /** Edges from one waiting thread to the holders of what it waits for. */
  function HolderEdges(holds: seq<SyncItem>, wait: SyncItem): seq<SyncEdge<Name>> {
    if holds == [] then []
    else
      var last := holds[|holds| - 1];
      HolderEdges(holds[..|holds| - 1], wait)
        + (if last.resource == wait.resource then [SyncEdge(wait.thread, last.thread)] else [])
  }

  function WaitEdges(waits: seq<SyncItem>, holds: seq<SyncItem>): seq<SyncEdge<Name>> {
    if waits == [] then []
    else
      var last := waits[|waits| - 1];
      WaitEdges(waits[..|waits| - 1], holds)
      + (if last.join then [SyncEdge(last.thread, last.target)] else HolderEdges(holds, last))
  }

  function JoinEdges(waits: seq<SyncItem>): seq<SyncEdge<Name>> {
    if waits == [] then []
    else
      var last := waits[|waits| - 1];
      JoinEdges(waits[..|waits| - 1]) + (if last.join then [SyncEdge(last.thread, last.target)] else [])
  }

  /** The first of a thread's edges whose target reaches the thread. */
  ghost function FirstCyclingEdge(edges: seq<SyncEdge<Name>>, k: nat, thread: Name): seq<(Name, Name)>
    requires k <= |edges|
    decreases |edges| - k
  {
    if k == |edges| then []
    else if edges[k].from == thread && Reaches(EdgeSet(edges), edges[k].to, thread) then [(thread, edges[k].to)]
    else FirstCyclingEdge(edges, k + 1, thread)
  }

  ghost function JoinPairs(joins: seq<SyncEdge<Name>>, wait: SyncItem): seq<(Name, Name)> {
    if Reaches(EdgeSet(joins), wait.target, wait.thread) then [(wait.thread, wait.target)] else []
  }

  /** The findings of the first k unfinished waits. */
  ghost function FinishWaits(s: SyncState, k: nat): seq<SyncFinding>
    requires k <= |s.waits|
  {
    if k == 0 then s.findings
    else
      var before, wait := FinishWaits(s, k - 1), s.waits[k - 1];
      if wait.join then ReportEach(before, JoinCycle, JoinPairs(JoinEdges(s.waits), wait), wait.at)
      else ReportEach(before, WaitCycle, FirstCyclingEdge(WaitEdges(s.waits, s.holds), 0, wait.thread), wait.at)
  }

  ghost function Analyze(events: seq<SyncEvent>): seq<SyncFinding> {
    FinishWaits(Run(events), |Run(events).waits|)
  }
}
