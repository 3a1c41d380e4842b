/** What the trace analysis reports and counts for every order of nodes, told
    from the calls that are open: which exits are reported and why, which calls
    stay open, and how deep a context went. */
module TraceFindings {
  import opened Events
  import opened TraceSpec
  import opened TraceTheorems

  // ---------- Open calls ----------

  predicate OfContext(n: Node, pid: int, context: nat) {
    n.kind == CallRecord && n.pid == pid && n.context == context
  }

  predicate SameCall(a: Node, b: Node) {
    a.callName == b.callName && a.fileName == b.fileName && a.functionName == b.functionName
  }

  predicate ForksInto(n: Node, pid: int, context: nat) {
    n.kind == ForkRecord && n.childPid == pid && n.context == context
  }

  function Outer(open: seq<nat>): (outer: seq<nat>)
    requires open != []
    ensures forall v :: v in outer ==> v in open
  {
    open[..|open| - 1]
  }

  /** The calls of a context open before place k, innermost last: an entry opens
      one, an exit that names the innermost one closes it, and a fork gives the
      child the parent's, without the call to the wrapper. */
  function OpenBefore(order: seq<Node>, k: nat, pid: int, context: nat): (open: seq<nat>)
    requires k <= |order|
    ensures forall v :: v in open ==> v < k
  {
    if k == 0 then []
    else
      var n, open := order[k - 1], OpenBefore(order, k - 1, pid, context);
      if ForksInto(n, pid, context) then
        var parent := OpenBefore(order, k - 1, n.pid, n.context);
        if parent == [] then []
        else
          assert parent[|parent| - 1] in parent;
          if order[parent[|parent| - 1]].callName == n.functionName then Outer(parent) else parent
      else if !OfContext(n, pid, context) then open
      else if n.callKind == CallKind.Enter then open + [k - 1]
      else if open == [] then []
      else
        assert open[|open| - 1] in open;
        if SameCall(order[open[|open| - 1]], n) then Outer(open) else open
  }

  // ---------- Rows ----------

  function RowOf(contexts: seq<Context>, pid: int, context: nat): Context {
    var i := IndexOf(contexts, pid, context);
    if i < |contexts| then contexts[i] else Context(pid, context, [], 0, 0, 0)
  }

  lemma {:induction false} RowKept(contexts: seq<Context>, pid: int, context: nat, p: int, c: nat)
    requires DistinctRows(contexts)
    ensures RowOf(WithContext(contexts, pid, context), p, c) == RowOf(contexts, p, c)
    ensures DistinctRows(WithContext(contexts, pid, context))
    ensures IndexOf(WithContext(contexts, pid, context), pid, context) == IndexOf(contexts, pid, context)
  {
    WithContextKeeps(contexts, pid, context, p, c);
    if IndexOf(contexts, pid, context) == |contexts| {
      IndexOfAppend(contexts, Context(pid, context, [], 0, 0, 0), p, c);
    }
  }

  lemma {:induction false} RowUpdated(rows: seq<Context>, i: nat, row: Context, p: int, c: nat)
    requires i < |rows| && row.pid == rows[i].pid && row.context == rows[i].context && DistinctRows(rows)
    ensures RowOf(rows[i := row], p, c) == if rows[i].pid == p && rows[i].context == c then row else RowOf(rows, p, c)
  {
    IndexOfUpdate(rows, i, row, p, c);
  }

  function Entered(row: Context, at: nat): Context {
    var depth := |row.stack| + 1;
    row.(stack := row.stack + [at], maxDepth := if row.maxDepth < depth then depth else row.maxDepth)
  }

  /** A call changes the row of its context. */
  lemma {:induction false} CallOnRows(order: seq<Node>, s: TraceState, n: Node, at: nat, p: int, c: nat)
    requires DistinctRows(s.contexts) && n.kind == CallRecord
    ensures var row := RowOf(s.contexts, p, c);
            RowOf(Step(order, s, n, at).contexts, p, c)
            == if !OfContext(n, p, c) then row
               else if n.callKind == CallKind.Enter then Entered(row, at) else ExitedContext(order, row, n)
    ensures n.callKind == CallKind.Enter ==> Step(order, s, n, at).findings == s.findings
    ensures n.callKind != CallKind.Enter ==>
              Step(order, s, n, at).findings
              == s.findings + ExitFindings(order, RowOf(s.contexts, n.pid, n.context), n, at)
  {
    hide DistinctRows, TopMatches;
    var i, rows := IndexOf(s.contexts, n.pid, n.context), WithContext(s.contexts, n.pid, n.context);
    RowKept(s.contexts, n.pid, n.context, p, c);
    RowKept(s.contexts, n.pid, n.context, n.pid, n.context);
    RowUpdated(rows, i, if n.callKind == CallKind.Enter then Entered(rows[i], at) else ExitedContext(order, rows[i], n),
               p, c);
  }

  /** A fork changes the child's row. */
  lemma {:induction false} ForkOnRows(order: seq<Node>, s: TraceState, n: Node, p: int, c: nat)
    requires DistinctRows(s.contexts)
    ensures var parent := RowOf(s.contexts, n.pid, n.context).stack;
            RowOf(Fork(order, s, n).contexts, p, c)
            == if p == n.childPid && c == n.context then
                 RowOf(s.contexts, p, c).(stack := Inherited(order, parent, n.functionName), maxDepth := |parent|)
               else RowOf(s.contexts, p, c)
  {
    hide DistinctRows, Inherited;
    var first := WithContext(s.contexts, n.pid, n.context);
    var child := IndexOf(first, n.childPid, n.context);
    var both := WithContext(first, n.childPid, n.context);
    RowKept(s.contexts, n.pid, n.context, p, c);
    RowKept(s.contexts, n.pid, n.context, n.pid, n.context);
    RowKept(first, n.childPid, n.context, p, c);
    RowKept(first, n.childPid, n.context, n.pid, n.context);
    RowKept(first, n.childPid, n.context, n.childPid, n.context);
    RowUpdated(both, child, Fork(order, s, n).contexts[child], p, c);
  }

  // ---------- The stacks are the open calls ----------

  /** The depth of a context: what it went down to since it was last forked into,
      and there the depth of its parent. */
  function DepthBefore(order: seq<Node>, k: nat, pid: int, context: nat): nat
    requires k <= |order|
  {
    if k == 0 then 0
    else
      var n, before := order[k - 1], DepthBefore(order, k - 1, pid, context);
      if ForksInto(n, pid, context) then |OpenBefore(order, k - 1, n.pid, n.context)|
      else if before < |OpenBefore(order, k, pid, context)| then |OpenBefore(order, k, pid, context)|
      else before
  }

  predicate ExitsOf(order: seq<Node>, i: nat, pid: int, context: nat) {
    i < |order| && OfContext(order[i], pid, context) && order[i].callKind == CallKind.Exit
  }

  /** The exit at i finds no call open. */
  predicate ExitsNothing(order: seq<Node>, i: nat, pid: int, context: nat) {
    ExitsOf(order, i, pid, context) && OpenBefore(order, i, pid, context) == []
  }

  /** The exit at i names another call than the innermost. */
  predicate ExitsOther(order: seq<Node>, i: nat, pid: int, context: nat) {
    && ExitsOf(order, i, pid, context) && OpenBefore(order, i, pid, context) != []
    && var open := OpenBefore(order, i, pid, context);
       assert open[|open| - 1] in open;
       !SameCall(order[open[|open| - 1]], order[i])
  }

  function CountTo(order: seq<Node>, k: nat, pid: int, context: nat, other: bool): nat
    requires k <= |order|
  {
    if k == 0 then 0
    else
      CountTo(order, k - 1, pid, context, other)
      + (if (if other then ExitsOther(order, k - 1, pid, context) else ExitsNothing(order, k - 1, pid, context)) then 1
         else 0)
  }

  /** What the row of a context holds before place k. */
  ghost predicate RowIs(order: seq<Node>, k: nat, pid: int, context: nat, row: Context)
    requires k <= |order|
  {
    && row.stack == OpenBefore(order, k, pid, context) && row.maxDepth == DepthBefore(order, k, pid, context)
    && row.unmatched == CountTo(order, k, pid, context, false)
    && row.mismatched == CountTo(order, k, pid, context, true)
  }

  lemma {:induction false} OpenNotDeeper(order: seq<Node>, k: nat, pid: int, context: nat)
    requires k <= |order|
    ensures |OpenBefore(order, k, pid, context)| <= DepthBefore(order, k, pid, context)
  {
    if k > 0 {
      OpenNotDeeper(order, k - 1, order[k - 1].pid, order[k - 1].context);
    }
  }

  lemma {:induction false} TopIsSame(order: seq<Node>, stack: seq<nat>, n: Node)
    requires forall v :: v in stack ==> v < |order|
    ensures stack != [] ==> stack[|stack| - 1] in stack
    ensures TopMatches(order, stack, n) <==> stack != [] && SameCall(order[stack[|stack| - 1]], n)
  {
    if stack != [] {
      assert stack[|stack| - 1] in stack;
    }
  }

  lemma {:induction false} CallRowNext(order: seq<Node>, k: nat, p: int, c: nat, row: Context)
    requires k < |order| && order[k].kind == CallRecord && RowIs(order, k, p, c, row)
    ensures RowIs(order, k + 1, p, c,
                  if !OfContext(order[k], p, c) then row
                  else if order[k].callKind == CallKind.Enter then Entered(row, k)
                  else ExitedContext(order, row, order[k]))
  {
    hide SameCall, TopMatches;
    OpenNotDeeper(order, k, p, c);
    TopIsSame(order, row.stack, order[k]);
  }

  lemma {:induction false} InheritedIsOpen(order: seq<Node>, k: nat, p: int, c: nat)
    requires k < |order| && ForksInto(order[k], p, c)
    ensures Inherited(order, OpenBefore(order, k, order[k].pid, order[k].context), order[k].functionName)
            == OpenBefore(order, k + 1, p, c)
  {
    var open := OpenBefore(order, k, order[k].pid, order[k].context);
    assert open != [] ==> open[|open| - 1] in open;
  }

  lemma {:induction false} ForkRowNext(order: seq<Node>, k: nat, p: int, c: nat, parent: Context, row: Context)
    requires k < |order| && order[k].kind == ForkRecord && RowIs(order, k, p, c, row)
    requires RowIs(order, k, order[k].pid, order[k].context, parent)
    ensures RowIs(order, k + 1, p, c,
                  if p == order[k].childPid && c == order[k].context then
                    row.(stack := Inherited(order, parent.stack, order[k].functionName), maxDepth := |parent.stack|)
                  else row)
  {
    hide OpenBefore, DepthBefore, CountTo, Inherited;
    OtherRowNext(order, k, p, c);
    if ForksInto(order[k], p, c) {
      InheritedIsOpen(order, k, p, c);
    }
  }

  lemma {:induction false} RowsAre(order: seq<Node>, k: nat, p: int, c: nat)
    requires k <= |order|
    ensures RowIs(order, k, p, c, RowOf(Run(order, k).contexts, p, c))
  {
    hide RowIs, RowOf, DistinctRows, ExitedContext, Entered, Inherited, Fork, TraceSpec.Enter, TraceSpec.Exit;
    if k == 0 {
      NoRowYet(order, p, c);
    } else {
      var s, n := Run(order, k - 1), order[k - 1];
      RowsAre(order, k - 1, p, c);
      RunRows(order, k - 1);
      RowsAreDistinct(order, s.contexts);
      if n.kind == CallRecord {
        CallOnRows(order, s, n, k - 1, p, c);
        CallRowNext(order, k - 1, p, c, RowOf(s.contexts, p, c));
      } else if n.kind == ForkRecord {
        RowsAre(order, k - 1, n.pid, n.context);
        ForkOnRows(order, s, n, p, c);
        ForkRowNext(order, k - 1, p, c, RowOf(s.contexts, n.pid, n.context), RowOf(s.contexts, p, c));
      } else {
        OtherRow(order, k - 1, p, c, RowOf(s.contexts, p, c));
      }
    }
  }

  lemma {:induction false} OtherRow(order: seq<Node>, k: nat, p: int, c: nat, row: Context)
    requires k < |order| && order[k].kind != CallRecord && order[k].kind != ForkRecord && RowIs(order, k, p, c, row)
    ensures RowIs(order, k + 1, p, c, row)
  {
    hide OpenBefore, DepthBefore, CountTo;
    OtherRowNext(order, k, p, c);
  }

  lemma {:induction false} NoRowYet(order: seq<Node>, p: int, c: nat)
    ensures RowIs(order, 0, p, c, RowOf(Run(order, 0).contexts, p, c))
  {}

  lemma {:induction false} OtherRowNext(order: seq<Node>, k: nat, p: int, c: nat)
    requires k < |order| && order[k].kind != CallRecord
    ensures !ForksInto(order[k], p, c) ==>
              OpenBefore(order, k + 1, p, c) == OpenBefore(order, k, p, c)
              && DepthBefore(order, k + 1, p, c) == DepthBefore(order, k, p, c)
    ensures ForksInto(order[k], p, c) ==>
              DepthBefore(order, k + 1, p, c) == |OpenBefore(order, k, order[k].pid, order[k].context)|
    ensures CountTo(order, k + 1, p, c, false) == CountTo(order, k, p, c, false)
    ensures CountTo(order, k + 1, p, c, true) == CountTo(order, k, p, c, true)
  {
    OpenNotDeeper(order, k, p, c);
  }

  // ---------- The findings ----------

  function ExitReports(order: seq<Node>, k: nat): seq<TraceFinding>
    requires k <= |order|
  {
    if k == 0 then []
    else
      var n := order[k - 1];
      ExitReports(order, k - 1)
      + (if ExitsNothing(order, k - 1, n.pid, n.context) then [TraceFinding(ExitWithoutCall, k - 1)]
         else if ExitsOther(order, k - 1, n.pid, n.context) then [TraceFinding(ExitMismatch, k - 1)]
         else [])
  }

  lemma {:induction false} ExitsReported(order: seq<Node>, k: nat)
    requires k <= |order|
    ensures Run(order, k).findings == ExitReports(order, k)
  {
    hide OpenBefore, DistinctRows, ExitedContext, Fork, TraceSpec.Enter, TraceSpec.Exit, SameCall, TopMatches,
         DepthBefore, CountTo;
    if k > 0 {
      var s, n := Run(order, k - 1), order[k - 1];
      ExitsReported(order, k - 1);
      assert s.findings + [] == s.findings;
      if n.kind == CallRecord {
        RunRows(order, k - 1);
        RowsAreDistinct(order, s.contexts);
        CallOnRows(order, s, n, k - 1, n.pid, n.context);
        RowsAre(order, k - 1, n.pid, n.context);
        TopIsSame(order, OpenBefore(order, k - 1, n.pid, n.context), n);
      } else if n.kind == ForkRecord {
        assert Fork(order, s, n).findings == s.findings by { ForkKeepsFindings(order, s, n); }
      }
    }
  }

  lemma {:induction false} ForkKeepsFindings(order: seq<Node>, s: TraceState, n: Node)
    ensures Fork(order, s, n).findings == s.findings
  {}

  lemma {:induction false} OpenCallsAre(stack: seq<nat>, f: TraceFinding)
    ensures f in OpenCalls(stack) <==> f.rule == CallLeftOpen && f.node in stack
  {
    if stack != [] {
      OpenCallsAre(Pop(stack), f);
      assert stack == Pop(stack) + [Top(stack)];
    }
  }

  lemma {:induction false} AllOpenCallsAre(contexts: seq<Context>, f: TraceFinding)
    ensures f in AllOpenCalls(contexts)
            <==> f.rule == CallLeftOpen && exists i :: 0 <= i < |contexts| && f.node in contexts[i].stack
  {
    hide OpenCalls;
    if contexts != [] {
      var n := |contexts| - 1;
      AllOpenCallsAre(contexts[..n], f);
      OpenCallsAre(contexts[n].stack, f);
      assert forall i :: 0 <= i < n ==> contexts[..n][i] == contexts[i];
    }
  }

  predicate LeftOpenIn(order: seq<Node>, v: nat, pid: int, context: nat) {
    v in OpenBefore(order, |order|, pid, context)
  }

  /** The findings: an exit that finds no call open, an exit that names another
      call than the innermost, and a call left open in some context. */
  ghost predicate IsFinding(order: seq<Node>, f: TraceFinding) {
    match f.rule
    case ExitWithoutCall => f.node < |order| && ExitsNothing(order, f.node, order[f.node].pid, order[f.node].context)
    case ExitMismatch => f.node < |order| && ExitsOther(order, f.node, order[f.node].pid, order[f.node].context)
    case CallLeftOpen => exists pid: int, context: nat :: LeftOpenIn(order, f.node, pid, context)
  }

  lemma {:induction false} InExitReports(order: seq<Node>, k: nat, f: TraceFinding)
    requires k <= |order|
    ensures f in ExitReports(order, k) <==> f.rule != CallLeftOpen && f.node < k && IsFinding(order, f)
  {
    hide ExitsNothing, ExitsOther, OpenBefore, LeftOpenIn;
    if k > 0 {
      InExitReports(order, k - 1, f);
      ExitsOneWay(order, k - 1, order[k - 1].pid, order[k - 1].context);
    }
  }

  lemma {:induction false} ExitsOneWay(order: seq<Node>, i: nat, pid: int, context: nat)
    ensures !(ExitsNothing(order, i, pid, context) && ExitsOther(order, i, pid, context))
  {}

  lemma {:induction false} LeftOpenInRows(order: seq<Node>, contexts: seq<Context>, v: nat)
    requires RowsOk(order, contexts)
    ensures (exists i :: 0 <= i < |contexts| && v in contexts[i].stack)
            <==> exists pid: int, context: nat :: v in RowOf(contexts, pid, context).stack
  {
    RowsAreDistinct(order, contexts);
    if i :| 0 <= i < |contexts| && v in contexts[i].stack {
      assert v in RowOf(contexts, contexts[i].pid, contexts[i].context).stack;
    }
  }

  /** The analysis reports exactly these, the exits in the order of the nodes. */
  lemma {:induction false} FindingsExact(order: seq<Node>, f: TraceFinding)
    ensures f in Analyze(order) <==> IsFinding(order, f)
    ensures ExitReports(order, |order|) <= Analyze(order)
  {
    hide ExitsNothing, ExitsOther, OpenBefore, ExitReports, Run, RowOf, DepthBefore, CountTo, RowsOk;
    var n := |order|;
    var s := Run(order, n);
    ExitsReported(order, n);
    InExitReports(order, n, f);
    AllOpenCallsAre(s.contexts, f);
    RunRows(order, n);
    LeftOpenInRows(order, s.contexts, f.node);
    forall pid: int, context: nat
      ensures LeftOpenIn(order, f.node, pid, context) <==> f.node in RowOf(s.contexts, pid, context).stack
    {
      RowsAre(order, n, pid, context);
    }
  }

  // ---------- Depths ----------

  /** The place after the last fork into the context before k. */
  function Since(order: seq<Node>, k: nat, pid: int, context: nat): (j: nat)
    requires k <= |order|
    ensures j <= k
  {
    if k == 0 then 0 else if ForksInto(order[k - 1], pid, context) then k else Since(order, k - 1, pid, context)
  }

  ghost predicate NeverDeeper(order: seq<Node>, k: nat, pid: int, context: nat, depth: nat) {
    forall j: nat :: j <= k && k <= |order| && Since(order, k, pid, context) <= j ==>
                       |OpenBefore(order, j, pid, context)| <= depth
  }

  ghost predicate SomewhereAsDeep(order: seq<Node>, k: nat, pid: int, context: nat, depth: nat) {
    exists j: nat :: j <= k && k <= |order| && Since(order, k, pid, context) <= j
                     && |OpenBefore(order, j, pid, context)| == depth
  }

  /** The depth counted is the greatest number of calls open since the fork into
      the context, if any, or the number open in the parent at that fork. */
  lemma {:induction false} DepthIsGreatest(order: seq<Node>, k: nat, pid: int, context: nat)
    requires k <= |order|
    ensures NeverDeeper(order, k, pid, context, DepthBefore(order, k, pid, context))
    ensures SomewhereAsDeep(order, k, pid, context, DepthBefore(order, k, pid, context))
            || var j := Since(order, k, pid, context);
               j > 0 && DepthBefore(order, k, pid, context)
                        == |OpenBefore(order, j - 1, order[j - 1].pid, order[j - 1].context)|
  {
    hide OpenBefore, ForksInto;
    OpenNotDeeper(order, k, pid, context);
    if k > 0 && !ForksInto(order[k - 1], pid, context) {
      DepthIsGreatest(order, k - 1, pid, context);
    }
  }
}
