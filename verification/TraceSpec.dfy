/** The call-trace analysis with one stack per execution context. */
module TraceSpec {
  import opened Events
  import opened Numerals

  datatype TraceRule = ExitWithoutCall | ExitMismatch | CallLeftOpen

  datatype TraceFinding = TraceFinding(rule: TraceRule, node: nat)

  /** A context's open calls, innermost last, and its counters. */
  datatype Context = Context(pid: int, context: nat, stack: seq<nat>, maxDepth: nat, unmatched: nat, mismatched: nat)

  datatype TraceState = TraceState(contexts: seq<Context>, findings: seq<TraceFinding>)

  const EMPTY := TraceState([], [])

  type CallIdentity = (string, string, string)

  function IdentityOf(n: Node): CallIdentity {
    (n.callName, n.fileName, n.functionName)
  }

  // ---------- The table of contexts ----------

  /** The first row of a context, or the number of rows. */
  function IndexOf(contexts: seq<Context>, pid: int, context: nat): (index: nat)
    ensures index <= |contexts|
    ensures index < |contexts| ==> contexts[index].pid == pid && contexts[index].context == context
  {
    if contexts == [] then 0
    else if contexts[0].pid == pid && contexts[0].context == context then 0
    else 1 + IndexOf(contexts[1..], pid, context)
  }

  /** Looking a context up adds it when it is new. */
  function WithContext(contexts: seq<Context>, pid: int, context: nat): (result: seq<Context>)
    ensures |result| >= |contexts| && IndexOf(contexts, pid, context) < |result|
  {
    if IndexOf(contexts, pid, context) < |contexts| then contexts
    else contexts + [Context(pid, context, [], 0, 0, 0)]
  }

  // ---------- The steps ----------

  function Top(stack: seq<nat>): nat
    requires stack != []
  {
    stack[|stack| - 1]
  }

  function Pop(stack: seq<nat>): seq<nat>
    requires stack != []
  {
    stack[..|stack| - 1]
  }

  /** The calls a forked child starts with: the parent's, without the call to
      the fork wrapper itself. */
  function Inherited(order: seq<Node>, stack: seq<nat>, forkName: string): seq<nat> {
    if stack != [] && Top(stack) < |order| && order[Top(stack)].callName == forkName then Pop(stack) else stack
  }

  function Fork(order: seq<Node>, s: TraceState, n: Node): TraceState {
    var parent := IndexOf(s.contexts, n.pid, n.context);
    var first := WithContext(s.contexts, n.pid, n.context);
    var child := IndexOf(first, n.childPid, n.context);
    var both := WithContext(first, n.childPid, n.context);
    var stack := both[parent].stack;
    s.(contexts := both[child := both[child].(stack := Inherited(order, stack, n.functionName), maxDepth := |stack|)])
  }

  function Enter(s: TraceState, n: Node, at: nat): TraceState {
    var i := IndexOf(s.contexts, n.pid, n.context);
    var rows := WithContext(s.contexts, n.pid, n.context);
    var c := rows[i];
    s.(contexts := rows[i := c.(stack := c.stack + [at], maxDepth := Max(c.maxDepth, |c.stack| + 1))])
  }

  /** The innermost open call is the one this exit names. */
  predicate TopMatches(order: seq<Node>, stack: seq<nat>, n: Node) {
    stack != [] && Top(stack) < |order| && IdentityOf(order[Top(stack)]) == IdentityOf(n)
  }

  function ExitedContext(order: seq<Node>, c: Context, n: Node): Context {
    if c.stack == [] then c.(unmatched := c.unmatched + 1)
    else if !TopMatches(order, c.stack, n) then c.(mismatched := c.mismatched + 1)
    else c.(stack := Pop(c.stack))
  }

  function ExitFindings(order: seq<Node>, c: Context, n: Node, at: nat): seq<TraceFinding> {
    if c.stack == [] then [TraceFinding(ExitWithoutCall, at)]
    else if !TopMatches(order, c.stack, n) then [TraceFinding(ExitMismatch, at)]
    else []
  }

  function Exit(order: seq<Node>, s: TraceState, n: Node, at: nat): TraceState {
    var i := IndexOf(s.contexts, n.pid, n.context);
    var rows := WithContext(s.contexts, n.pid, n.context);
    TraceState(rows[i := ExitedContext(order, rows[i], n)], s.findings + ExitFindings(order, rows[i], n, at))
  }

  function Step(order: seq<Node>, s: TraceState, n: Node, at: nat): TraceState {
    if n.kind == ForkRecord then Fork(order, s, n)
    else if n.kind != CallRecord then s
    else if n.callKind == CallKind.Enter then Enter(s, n, at)
    else Exit(order, s, n, at)
  }

  function Run(order: seq<Node>, k: nat): TraceState
    requires k <= |order|
  {
    if k == 0 then EMPTY else Step(order, Run(order, k - 1), order[k - 1], k - 1)
  }

  /** The calls of one stack that stayed open, innermost first. */
  function OpenCalls(stack: seq<nat>): seq<TraceFinding> {
    if stack == [] then [] else [TraceFinding(CallLeftOpen, Top(stack))] + OpenCalls(Pop(stack))
  }

  function AllOpenCalls(contexts: seq<Context>): seq<TraceFinding> {
    if contexts == [] then []
    else AllOpenCalls(contexts[..|contexts| - 1]) + OpenCalls(contexts[|contexts| - 1].stack)
  }

  function Analyze(order: seq<Node>): seq<TraceFinding> {
    var s := Run(order, |order|);
    s.findings + AllOpenCalls(s.contexts)
  }
}
