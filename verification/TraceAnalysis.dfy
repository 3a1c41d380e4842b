/** analyze_trace: the stacks of all contexts share one arena of linked entries;
    a fork shares the parent's chain instead of copying it. */
module TraceAnalysis {
  import opened Events
  import opened Numerals
  import opened TraceFindings
  import opened TraceSpec

  datatype StackEntry = StackEntry(node: nat, previous: nat)

  datatype TraceRow = TraceRow(pid: int, context: nat, top: nat, maxDepth: nat, depth: nat, unmatched: nat,
                               mismatched: nat)

  // ---------- The arena ----------

  /** Every entry links to an older one or to none. */
  ghost predicate Arena(entries: seq<StackEntry>) {
    |entries| <= SIZE_MAX
      && forall k :: 0 <= k < |entries| ==> entries[k].previous == SIZE_MAX || entries[k].previous < k
  }

  /** The nodes from the end of the chain up to `top`. */
  function Chain(entries: seq<StackEntry>, top: nat): seq<nat>
    decreases top
  {
    if top >= |entries| then []
    else if entries[top].previous < top then Chain(entries, entries[top].previous) + [entries[top].node]
    else [entries[top].node]
  }

  lemma {:induction false} ChainKept(entries: seq<StackEntry>, e: StackEntry, top: nat)
    requires Arena(entries) && (top < |entries| || (top == SIZE_MAX && |entries| < SIZE_MAX))
    ensures Chain(entries + [e], top) == Chain(entries, top)
    decreases top
  {
    if top < |entries| && entries[top].previous < top {
      ChainKept(entries, e, entries[top].previous);
    }
  }

  /** A new entry puts its node on top of the chain it links to. */
  lemma {:induction false} ChainPush(entries: seq<StackEntry>, node: nat, top: nat)
    requires Arena(entries) && |entries| < SIZE_MAX && (top < |entries| || top == SIZE_MAX)
    ensures Chain(entries + [StackEntry(node, top)], |entries|) == Chain(entries, top) + [node]
    ensures Arena(entries + [StackEntry(node, top)])
  {
    ChainKept(entries, StackEntry(node, top), top);
  }

  lemma {:induction false} ChainTop(entries: seq<StackEntry>, top: nat)
    requires Arena(entries) && top < |entries|
    ensures Chain(entries, top) != [] && Top(Chain(entries, top)) == entries[top].node
    ensures Pop(Chain(entries, top)) == Chain(entries, entries[top].previous)
  {}

  // ---------- The object ----------

  ghost predicate RowOk(entries: seq<StackEntry>, r: TraceRow) {
    (r.top == SIZE_MAX || r.top < |entries|) && r.depth == |Chain(entries, r.top)|
  }

  ghost function ContextOf(entries: seq<StackEntry>, r: TraceRow): Context {
    Context(r.pid, r.context, Chain(entries, r.top), r.maxDepth, r.unmatched, r.mismatched)
  }

  ghost function ContextsOf(entries: seq<StackEntry>, rows: seq<TraceRow>): seq<Context> {
    seq(|rows|, i requires 0 <= i < |rows| => ContextOf(entries, rows[i]))
  }

  lemma {:induction false} IndexOfIsFirst(contexts: seq<Context>, i: nat, pid: int, context: nat)
    requires i <= |contexts| && forall k :: 0 <= k < i ==> contexts[k].pid != pid || contexts[k].context != context
    requires i < |contexts| ==> contexts[i].pid == pid && contexts[i].context == context
    ensures IndexOf(contexts, pid, context) == i
  {
    if i > 0 {
      IndexOfIsFirst(contexts[1..], i - 1, pid, context);
    }
  }

  class TraceAnalysis {
    const order: seq<Node>
    const stackEntries: array<StackEntry>
    var entryCount: nat
    var rows: seq<TraceRow>
    var findings: seq<TraceFinding>

    ghost function Entries(): seq<StackEntry>
      requires entryCount <= stackEntries.Length
      reads this, stackEntries
    {
      stackEntries[..entryCount]
    }

    /** The arena is linked backwards, there is room for the calls to come, and
        every depth counter is the length of its chain. */
    ghost predicate Valid(at: nat)
      reads this, stackEntries
    {
      |order| < SIZE_MAX && entryCount <= at <= |order| <= stackEntries.Length && |rows| <= |order|
      && Arena(Entries()) && forall i :: 0 <= i < |rows| ==> RowOk(Entries(), rows[i])
    }

    ghost function State(): TraceState
      requires entryCount <= stackEntries.Length
      reads this, stackEntries
    {
      TraceState(ContextsOf(Entries(), rows), findings)
    }

    constructor (nodes: seq<Node>)
      requires |nodes| < SIZE_MAX
      ensures Valid(0) && State() == EMPTY && order == nodes && fresh(stackEntries)
    {
      order := nodes;
      stackEntries := new StackEntry[|nodes|](_ => StackEntry(0, SIZE_MAX));
      entryCount, rows, findings := 0, [], [];
    }

    /** trace_context: finds the row or appends a new one; the table has as many
        rows as there are ordered nodes. */
    method Lookup(pid: int, context: nat, ghost at: nat) returns (found: bool, index: nat)
      requires Valid(at)
      modifies `rows
      ensures Valid(at) && index == IndexOf(old(State()).contexts, pid, context)
      ensures found <==> |WithContext(old(State()).contexts, pid, context)| <= |order|
      ensures State().contexts
              == if found then WithContext(old(State()).contexts, pid, context) else old(State()).contexts
      ensures found ==> index < |rows| && index == IndexOf(State().contexts, pid, context)
    {
      found := true;
      index := 0;
      while index < |rows| && (rows[index].pid != pid || rows[index].context != context)
        invariant index <= |rows|
        invariant forall k :: 0 <= k < index ==> rows[k].pid != pid || rows[k].context != context
      {
        index := index + 1;
      }
      IndexOfIsFirst(State().contexts, index, pid, context);
      if index == |rows| {
        found := |rows| < |order|;
        if found {
          rows := rows + [TraceRow(pid, context, SIZE_MAX, 0, 0, 0, 0)];
          assert State().contexts == old(State()).contexts + [Context(pid, context, [], 0, 0, 0)];
          IndexOfIsFirst(State().contexts, index, pid, context);
        }
      }
    }

    method ReplaceRow(index: nat, row: TraceRow, ghost at: nat)
      requires Valid(at) && index < |rows| && RowOk(Entries(), row)
      modifies `rows
      ensures Valid(at)
              && State() == old(State()).(contexts := old(State()).contexts[index := ContextOf(Entries(), row)])
    {
      rows := rows[index := row];
      assert ContextsOf(Entries(), rows) == ContextsOf(Entries(), old(rows))[index := ContextOf(Entries(), row)];
    }

    method Fork(n: Node, at: nat) returns (ok: bool)
      requires Valid(at) && at < |order| && n.kind == ForkRecord
      modifies `rows
      ensures ok <==> |TraceSpec.Fork(order, old(State()), n).contexts| <= |order|
      ensures Valid(at + 1) && (ok ==> State() == TraceSpec.Fork(order, old(State()), n))
    {
      var parent, child;
      ok, parent, child := LookupBoth(n, at);
      if ok {
        Inherit(n, at, parent, child);
      }
    }

    /** The rows of a fork's parent and child. */
    method LookupBoth(n: Node, at: nat) returns (ok: bool, parent: nat, child: nat)
      requires Valid(at)
      modifies `rows
      ensures Valid(at)
      ensures var first := WithContext(old(State()).contexts, n.pid, n.context);
              var both := WithContext(first, n.childPid, n.context);
              (ok <==> |both| <= |order|)
              && (ok ==> State() == old(State()).(contexts := both)
                         && parent == IndexOf(old(State()).contexts, n.pid, n.context) < |rows|
                         && child == IndexOf(first, n.childPid, n.context) < |rows|)
    {
      var parentFound, childFound;
      parentFound, parent := Lookup(n.pid, n.context, at);
      childFound, child := Lookup(n.childPid, n.context, at);
      ok := parentFound && childFound;
    }

    /** The child's row takes the parent's chain, without the call to the fork
        wrapper. */
    method Inherit(n: Node, at: nat, parent: nat, child: nat)
      requires Valid(at) && at < |order| && parent < |rows| && child < |rows|
      modifies `rows
      ensures Valid(at + 1)
      ensures var both := old(State()).contexts;
              var stack := both[parent].stack;
              State() == old(State()).(contexts := both[child := both[child].(
                                         stack := Inherited(order, stack, n.functionName), maxDepth := |stack|)])
    {
      var top, depth := rows[parent].top, rows[parent].depth;
      assert RowOk(Entries(), rows[parent]);
      ghost var stack := Chain(Entries(), top);
      assert State().contexts[parent].stack == stack;
      if top != SIZE_MAX {
        ChainTop(Entries(), top);
        var active := stackEntries[top].node;
        if active < |order| && order[active].callName == n.functionName {
          top, depth := stackEntries[top].previous, if depth > 0 then depth - 1 else depth;
        }
      }
      assert Chain(Entries(), top) == Inherited(order, stack, n.functionName);
      ReplaceRow(child, rows[child].(top := top, depth := depth, maxDepth := rows[parent].depth), at);
    }

    method Enter(n: Node, at: nat) returns (ok: bool)
      requires Valid(at) && at < |order| && n.kind == CallRecord && n.callKind == CallKind.Enter
      modifies this, stackEntries
      ensures ok <==> |TraceSpec.Enter(old(State()), n, at).contexts| <= |order|
      ensures Valid(at + 1) && (ok ==> State() == TraceSpec.Enter(old(State()), n, at))
      ensures old(entryCount) <= entryCount && stackEntries[..old(entryCount)] == old(Entries())
    {
      hide Arena, RowOk, IndexOf, Chain, Max;
      var index;
      ok, index := Lookup(n.pid, n.context, at);
      if ok {
        EnterRow(index, at);
      }
    }

    method EnterRow(index: nat, at: nat)
      requires Valid(at) && at < |order| && index < |rows|
      modifies this, stackEntries
      ensures entryCount == old(entryCount) + 1 && stackEntries[..old(entryCount)] == old(Entries())
      ensures Valid(at + 1)
      ensures var c := old(State()).contexts[index];
              State() == old(State()).(contexts := old(State()).contexts[
                                         index := c.(stack := c.stack + [at],
                                                     maxDepth := Max(c.maxDepth, |c.stack| + 1))])
    {
      var row := rows[index];
      PushEntry(at, row.top);
      var depth := row.depth + 1;
      row := row.(top := entryCount - 1, depth := depth,
                  maxDepth := if depth > row.maxDepth then depth else row.maxDepth);
      ReplaceRow(index, row, at + 1);
    }

    /** Appends an entry; older entries and the stacks they form stay. */
    method PushEntry(at: nat, top: nat)
      requires Valid(at) && at < |order| && (top == SIZE_MAX || top < entryCount)
      modifies `entryCount, stackEntries
      ensures Valid(at + 1) && State() == old(State())
      ensures entryCount == old(entryCount) + 1 && stackEntries[..old(entryCount)] == old(Entries())
      ensures Chain(Entries(), entryCount - 1) == old(Chain(Entries(), top)) + [at]
    {
      ghost var before := Entries();
      stackEntries[entryCount] := StackEntry(at, top);
      entryCount := entryCount + 1;
      assert Entries() == before + [StackEntry(at, top)];
      ChainPush(before, at, top);
      forall i | 0 <= i < |rows|
        ensures RowOk(Entries(), rows[i]) && Chain(Entries(), rows[i].top) == Chain(before, rows[i].top)
      {
        assert RowOk(before, rows[i]);
        ChainKept(before, StackEntry(at, top), rows[i].top);
      }
      assert ContextsOf(Entries(), rows) == ContextsOf(before, rows);
    }

    /** An exit on the row of its context. */
    method ExitRow(row: TraceRow, n: Node, at: nat) returns (after: TraceRow)
      requires Valid(at) && RowOk(Entries(), row)
      modifies `findings
      ensures RowOk(Entries(), after)
      ensures ContextOf(Entries(), after) == ExitedContext(order, ContextOf(Entries(), row), n)
      ensures findings == old(findings) + ExitFindings(order, ContextOf(Entries(), row), n, at)
    {
      if row.top == SIZE_MAX {
        after := row.(unmatched := row.unmatched + 1);
        findings := findings + [TraceFinding(ExitWithoutCall, at)];
        return;
      }
      ChainTop(Entries(), row.top);
      var active := stackEntries[row.top].node;
      if active >= |order| || IdentityOf(order[active]) != IdentityOf(n) {
        after := row.(mismatched := row.mismatched + 1);
        findings := findings + [TraceFinding(ExitMismatch, at)];
        return;
      }
      after := row.(top := stackEntries[row.top].previous, depth := if row.depth > 0 then row.depth - 1 else row.depth);
    }

    method Exit(n: Node, at: nat) returns (ok: bool)
      requires Valid(at) && at < |order| && n.kind == CallRecord && n.callKind == CallKind.Exit
      modifies `rows, `findings
      ensures ok <==> |TraceSpec.Exit(order, old(State()), n, at).contexts| <= |order|
      ensures Valid(at + 1) && (ok ==> State() == TraceSpec.Exit(order, old(State()), n, at))
    {
      hide ExitedContext, ExitFindings, Arena, RowOk;
      var index;
      ok, index := Lookup(n.pid, n.context, at);
      if ok {
        LeaveRow(index, n, at);
      }
    }

    method LeaveRow(index: nat, n: Node, at: nat)
      requires Valid(at) && index < |rows|
      modifies `rows, `findings
      ensures Valid(at)
      ensures var c := old(State()).contexts[index];
              State() == TraceState(old(State()).contexts[index := ExitedContext(order, c, n)],
                                    old(State()).findings + ExitFindings(order, c, n, at))
    {
      assert ContextsOf(Entries(), rows)[index] == ContextOf(Entries(), rows[index]);
      var row := ExitRow(rows[index], n, at);
      ReplaceRow(index, row, at);
    }

    method Observe(at: nat) returns (ok: bool)
      requires Valid(at) && at < |order|
      modifies this, stackEntries
      ensures ok <==> |Step(order, old(State()), order[at], at).contexts| <= |order|
      ensures Valid(at + 1) && (ok ==> State() == Step(order, old(State()), order[at], at))
      ensures old(entryCount) <= entryCount && stackEntries[..old(entryCount)] == old(Entries())
    {
      var n := order[at];
      ok := true;
      if n.kind == ForkRecord {
        ok := Fork(n, at);
      } else if n.kind == CallRecord {
        if n.callKind == CallKind.Enter {
          ok := Enter(n, at);
        } else {
          ok := Exit(n, at);
        }
      }
    }

    /** Walks one chain from its top. */
    method ReportOpen(start: nat)
      requires Valid(|order|) && (start == SIZE_MAX || start < entryCount)
      modifies `findings
      ensures findings == old(findings) + OpenCalls(Chain(Entries(), start))
    {
      var top: nat := start;
      while top != SIZE_MAX
        invariant top == SIZE_MAX || top < entryCount
        invariant findings + OpenCalls(Chain(Entries(), top)) == old(findings) + OpenCalls(Chain(Entries(), start))
        decreases if top == SIZE_MAX then 0 else top + 1
      {
        ChainTop(Entries(), top);
        findings := findings + [TraceFinding(CallLeftOpen, stackEntries[top].node)];
        top := stackEntries[top].previous;
      }
    }

    /** Calls that stayed open, context by context, innermost first. */
    method Finish()
      requires Valid(|order|)
      modifies `findings
      ensures findings == old(findings) + AllOpenCalls(old(State()).contexts)
    {
      ghost var contexts := State().contexts;
      var index := 0;
      while index < |rows|
        invariant index <= |rows| && findings == old(findings) + AllOpenCalls(contexts[..index])
      {
        AllOpenCallsNext(contexts, index);
        assert RowOk(Entries(), rows[index]) && contexts[index].stack == Chain(Entries(), rows[index].top);
        ReportOpen(rows[index].top);
        JoinFindings(old(findings), AllOpenCalls(contexts[..index]), OpenCalls(contexts[index].stack));
        index := index + 1;
      }
      assert contexts[..index] == contexts;
    }
  }

  lemma {:induction false} AllOpenCallsNext(contexts: seq<Context>, k: nat)
    requires k < |contexts|
    ensures AllOpenCalls(contexts[..k + 1]) == AllOpenCalls(contexts[..k]) + OpenCalls(contexts[k].stack)
  {
    assert contexts[..k + 1][..k] == contexts[..k];
  }

  lemma {:induction false} JoinFindings(a: seq<TraceFinding>, b: seq<TraceFinding>, c: seq<TraceFinding>)
    ensures a + b + c == a + (b + c)
  {}

  lemma {:induction false} TableGrows(order: seq<Node>, j: nat, k: nat)
    requires j <= k <= |order|
    ensures |Run(order, j).contexts| <= |Run(order, k).contexts|
    decreases k
  {
    hide Step;
    if j < k {
      TableGrows(order, j, k - 1);
      StepGrows(order, Run(order, k - 1), order[k - 1], k - 1);
    }
  }

  lemma {:induction false} StepGrows(order: seq<Node>, s: TraceState, n: Node, at: nat)
    ensures |s.contexts| <= |Step(order, s, n, at).contexts|
  {}

  /** analyze_trace over an order of nodes. It fails exactly when more contexts
      are named than there are nodes. */
  method AnalyzeTrace(order: seq<Node>) returns (ok: bool, findings: seq<TraceFinding>)
    requires |order| < SIZE_MAX
    ensures ok <==> |Run(order, |order|).contexts| <= |order|
    ensures ok ==> findings == Analyze(order)
    ensures ok ==> forall f :: f in findings <==> IsFinding(order, f)
  {
    hide Step, AllOpenCalls, IsFinding;
    var analysis := new TraceAnalysis(order);
    var index := 0;
    ok, findings := true, [];
    while ok && index < |order|
      invariant index <= |order| == |analysis.order| && analysis.order == order && analysis.Valid(index)
      invariant ok ==> analysis.State() == Run(order, index)
      invariant !ok ==> |Run(order, index).contexts| > |order|
      invariant fresh(analysis) && fresh(analysis.stackEntries)
    {
      ok := analysis.Observe(index);
      index := index + 1;
    }
    TableGrows(order, index, |order|);
    if ok {
      analysis.Finish();
      findings := analysis.findings;
      forall f {
        FindingsExact(order, f);
      }
    }
  }
}
