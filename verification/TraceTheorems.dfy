/** A trace is free of findings exactly when the calls of every context can be
    read throughout and form a balanced word; a forked child begins with the
    calls open in its parent. */
module TraceTheorems {
  import opened Events
  import opened Wrappers
  import opened CallWords
  import opened TraceSpec

  // ---------- Rows of the context table ----------

  ghost predicate DistinctRows(contexts: seq<Context>) {
    forall i :: 0 <= i < |contexts| ==> IndexOf(contexts, contexts[i].pid, contexts[i].context) == i
  }

  lemma {:induction false} IndexOfAppend(contexts: seq<Context>, c: Context, pid: int, context: nat)
    ensures IndexOf(contexts + [c], pid, context)
            == var i := IndexOf(contexts, pid, context);
               if i < |contexts| || (c.pid == pid && c.context == context) then i else |contexts| + 1
  {
    if contexts == [] {
      assert [] + [c] == [c];
    } else {
      assert (contexts + [c])[1..] == contexts[1..] + [c];
      IndexOfAppend(contexts[1..], c, pid, context);
    }
  }

  lemma {:induction false} IndexOfUpdate(contexts: seq<Context>, i: nat, c: Context, pid: int, context: nat)
    requires i < |contexts| && c.pid == contexts[i].pid && c.context == contexts[i].context
    ensures IndexOf(contexts[i := c], pid, context) == IndexOf(contexts, pid, context)
  {
    if i == 0 {
      assert contexts[i := c][1..] == contexts[1..];
    } else {
      assert contexts[i := c][1..] == contexts[1..][i - 1 := c];
      IndexOfUpdate(contexts[1..], i - 1, c, pid, context);
    }
  }

  lemma {:induction false} WithContextKeeps(contexts: seq<Context>, pid: int, context: nat, p: int, c: nat)
    requires DistinctRows(contexts)
    ensures var rows := WithContext(contexts, pid, context);
            DistinctRows(rows) && IndexOf(rows, pid, context) == IndexOf(contexts, pid, context)
            && StackOf(rows, p, c) == StackOf(contexts, p, c)
  {
    var row := Context(pid, context, [], 0, 0, 0);
    if IndexOf(contexts, pid, context) == |contexts| {
      var rows := contexts + [row];
      IndexOfAppend(contexts, row, p, c);
      IndexOfAppend(contexts, row, pid, context);
      forall i | 0 <= i < |rows|
        ensures IndexOf(rows, rows[i].pid, rows[i].context) == i
      {
        IndexOfAppend(contexts, row, rows[i].pid, rows[i].context);
      }
    }
  }

  lemma {:induction false} UpdateKeepsDistinct(contexts: seq<Context>, i: nat, c: Context)
    requires i < |contexts| && c.pid == contexts[i].pid && c.context == contexts[i].context && DistinctRows(contexts)
    ensures DistinctRows(contexts[i := c])
  {
    var rows := contexts[i := c];
    forall j | 0 <= j < |rows|
      ensures IndexOf(rows, rows[j].pid, rows[j].context) == j
    {
      IndexOfUpdate(contexts, i, c, contexts[j].pid, contexts[j].context);
    }
  }

  /** The open calls of a context; a context never seen has none. */
  function StackOf(contexts: seq<Context>, pid: int, context: nat): seq<nat> {
    var i := IndexOf(contexts, pid, context);
    if i < |contexts| then contexts[i].stack else []
  }

  // ---------- Words ----------

  predicate IsCallOf(n: Node, pid: int, context: nat) {
    n.kind == CallRecord && n.pid == pid && n.context == context
  }

  function BracketOf(n: Node): Bracket<CallIdentity> {
    if n.callKind == CallKind.Enter then Bracket.Open(IdentityOf(n)) else Bracket.Close(IdentityOf(n))
  }

  predicate IsForkInto(n: Node, pid: int, context: nat) {
    n.kind == ForkRecord && n.childPid == pid && n.context == context
  }

  /** The calls that a word leaves open, outermost first. */
  function OpenOf(w: seq<Bracket<CallIdentity>>): seq<CallIdentity> {
    match Machine([], w)
    case None => []
    case Some(open) => open
  }

  /** The call to the fork wrapper itself is not the child's. */
  function WithoutWrapper(open: seq<CallIdentity>, forkName: string): seq<CallIdentity> {
    if open != [] && open[|open| - 1].0 == forkName then open[..|open| - 1] else open
  }

  function Openings(open: seq<CallIdentity>): seq<Bracket<CallIdentity>> {
    if open == [] then [] else Openings(open[..|open| - 1]) + [Bracket.Open(open[|open| - 1])]
  }

  /** The calls of a context among the first k nodes. A fork makes the child
      begin anew with the calls open in its parent. */
  function Word(order: seq<Node>, k: nat, pid: int, context: nat): seq<Bracket<CallIdentity>>
    requires k <= |order|
  {
    if k == 0 then []
    else
      var n := order[k - 1];
      if IsForkInto(n, pid, context) then
        Openings(WithoutWrapper(OpenOf(Word(order, k - 1, n.pid, n.context)), n.functionName))
      else Word(order, k - 1, pid, context) + (if IsCallOf(n, pid, context) then [BracketOf(n)] else [])
  }

  function Identities(order: seq<Node>, stack: seq<nat>): seq<CallIdentity>
    requires forall v :: v in stack ==> v < |order|
  {
    seq(|stack|, i requires 0 <= i < |stack| => assert stack[i] in stack; IdentityOf(order[stack[i]]))
  }

  ghost predicate NoForks(order: seq<Node>) {
    forall n :: n in order ==> n.kind != ForkRecord
  }

  ghost predicate BelowLength(order: seq<Node>, contexts: seq<Context>) {
    forall i :: 0 <= i < |contexts| ==> forall v :: v in contexts[i].stack ==> v < |order|
  }

  ghost function Reading(order: seq<Node>, k: nat, pid: int, context: nat): Option<seq<CallIdentity>>
    requires k <= |order|
  {
    Machine([], Word(order, k, pid, context))
  }

  lemma {:induction false} OpeningsRead(open: seq<CallIdentity>)
    ensures Machine([], Openings(open)) == Some(open)
  {
    if open != [] {
      var n := |open| - 1;
      OpeningsRead(open[..n]);
      MachineConcat([], Openings(open[..n]), [Bracket.Open(open[n])]);
      MachineOne(open[..n], Bracket.Open(open[n]));
      assert open[..n] + [open[n]] == open;
    }
  }

  lemma {:induction false} ReadingAtFork(order: seq<Node>, k: nat, pid: int, context: nat)
    requires k < |order| && IsForkInto(order[k], pid, context)
    ensures var n := order[k];
            Reading(order, k + 1, pid, context)
              == Some(WithoutWrapper(OpenOf(Word(order, k, n.pid, n.context)), n.functionName))
  {
    OpeningsRead(WithoutWrapper(OpenOf(Word(order, k, order[k].pid, order[k].context)), order[k].functionName));
  }

  lemma {:induction false} ReadingNext(order: seq<Node>, k: nat, pid: int, context: nat)
    requires k < |order| && !IsForkInto(order[k], pid, context)
    ensures Reading(order, k + 1, pid, context)
            == var before := Reading(order, k, pid, context);
               if before.None? || !IsCallOf(order[k], pid, context) then before
               else Machine(before.value, [BracketOf(order[k])])
  {
    var w := Word(order, k, pid, context);
    MachineConcat([], w, [BracketOf(order[k])]);
    assert w + [] == w;
  }

  // ---------- One call ----------

  function StackAfter(order: seq<Node>, stack: seq<nat>, n: Node, at: nat): seq<nat> {
    if n.callKind == CallKind.Enter then stack + [at]
    else if TopMatches(order, stack, n) then Pop(stack)
    else stack
  }

  /** A call rewrites one row of the table. */
  lemma {:induction false} StepRewritesRow(order: seq<Node>, s: TraceState, n: Node, at: nat) returns (row: Context)
    requires n.kind == CallRecord
    ensures var i, rows := IndexOf(s.contexts, n.pid, n.context), WithContext(s.contexts, n.pid, n.context);
            Step(order, s, n, at).contexts == rows[i := row] && row.pid == rows[i].pid && row.context == rows[i].context
            && row.stack == StackAfter(order, rows[i].stack, n, at)
  {
    row := Step(order, s, n, at).contexts[IndexOf(s.contexts, n.pid, n.context)];
  }

  /** What one call does to the stack of its context and to the others. */
  lemma {:induction false} StepOnStacks(order: seq<Node>, s: TraceState, n: Node, at: nat, p: int, c: nat)
    requires DistinctRows(s.contexts) && n.kind == CallRecord
    ensures DistinctRows(Step(order, s, n, at).contexts)
    ensures StackOf(Step(order, s, n, at).contexts, p, c)
            == if IsCallOf(n, p, c) then StackAfter(order, StackOf(s.contexts, p, c), n, at)
               else StackOf(s.contexts, p, c)
  {
    var i := IndexOf(s.contexts, n.pid, n.context);
    var rows := WithContext(s.contexts, n.pid, n.context);
    WithContextKeeps(s.contexts, n.pid, n.context, p, c);
    WithContextKeeps(s.contexts, n.pid, n.context, n.pid, n.context);
    var row := StepRewritesRow(order, s, n, at);
    UpdateKeepsDistinct(rows, i, row);
    IndexOfUpdate(rows, i, row, p, c);
  }

  lemma {:induction false} StepBelowLength(order: seq<Node>, s: TraceState, n: Node, at: nat)
    requires BelowLength(order, s.contexts) && n.kind == CallRecord && at < |order|
    ensures BelowLength(order, Step(order, s, n, at).contexts)
  {
    var i, rows := IndexOf(s.contexts, n.pid, n.context), WithContext(s.contexts, n.pid, n.context);
    WithContextBelow(order, s.contexts, n.pid, n.context);
    var row := StepRewritesRow(order, s, n, at);
    forall v | v in row.stack
      ensures v < |order|
    {
      assert v in rows[i].stack || v == at;
    }
    UpdateBelow(order, rows, i, row);
  }

  lemma {:induction false} WithContextBelow(order: seq<Node>, contexts: seq<Context>, pid: int, context: nat)
    requires BelowLength(order, contexts)
    ensures BelowLength(order, WithContext(contexts, pid, context))
  {}

  lemma {:induction false} UpdateBelow(order: seq<Node>, rows: seq<Context>, i: nat, c: Context)
    requires BelowLength(order, rows) && i < |rows| && forall v :: v in c.stack ==> v < |order|
    ensures BelowLength(order, rows[i := c])
  {}

  /** A fork gives the child the parent's stack and leaves every other alone. */
  lemma {:induction false} ForkOnStacks(order: seq<Node>, s: TraceState, n: Node, p: int, c: nat)
    requires DistinctRows(s.contexts)
    ensures DistinctRows(Fork(order, s, n).contexts)
    ensures StackOf(Fork(order, s, n).contexts, p, c)
            == if p == n.childPid && c == n.context then
               Inherited(order, StackOf(s.contexts, n.pid, n.context), n.functionName)
               else StackOf(s.contexts, p, c)
  {
    var first := WithContext(s.contexts, n.pid, n.context);
    var both := WithContext(first, n.childPid, n.context);
    var child := IndexOf(first, n.childPid, n.context);
    WithContextKeeps(s.contexts, n.pid, n.context, p, c);
    WithContextKeeps(s.contexts, n.pid, n.context, n.pid, n.context);
    WithContextKeeps(first, n.childPid, n.context, p, c);
    WithContextKeeps(first, n.childPid, n.context, n.pid, n.context);
    var row := Fork(order, s, n).contexts[child];
    UpdateKeepsDistinct(both, child, row);
    IndexOfUpdate(both, child, row, p, c);
  }

  /** A call adds a finding exactly when it is an exit its stack does not match. */
  lemma {:induction false} StepFindings(order: seq<Node>, s: TraceState, n: Node, at: nat)
    requires DistinctRows(s.contexts) && n.kind == CallRecord
    ensures Step(order, s, n, at).findings == s.findings
            <==> n.callKind == CallKind.Enter || TopMatches(order, StackOf(s.contexts, n.pid, n.context), n)
    ensures |Step(order, s, n, at).findings| >= |s.findings|
  {
    WithContextKeeps(s.contexts, n.pid, n.context, n.pid, n.context);
    assert |s.findings + [TraceFinding(ExitMismatch, at)]| == |s.findings| + 1;
  }

  lemma {:induction false} IdentitiesPush(order: seq<Node>, stack: seq<nat>, at: nat)
    requires (forall v :: v in stack ==> v < |order|) && at < |order|
    ensures Identities(order, stack + [at]) == Identities(order, stack) + [IdentityOf(order[at])]
  {}

  // ---------- Runs ----------

  ghost predicate RowsOk(order: seq<Node>, contexts: seq<Context>) {
    DistinctRows(contexts) && BelowLength(order, contexts)
  }

  lemma {:induction false} ForkBelowLength(order: seq<Node>, s: TraceState, n: Node)
    requires BelowLength(order, s.contexts)
    ensures BelowLength(order, Fork(order, s, n).contexts)
  {
    var parent, first := IndexOf(s.contexts, n.pid, n.context), WithContext(s.contexts, n.pid, n.context);
    var child, both := IndexOf(first, n.childPid, n.context), WithContext(first, n.childPid, n.context);
    WithContextBelow(order, s.contexts, n.pid, n.context);
    WithContextBelow(order, first, n.childPid, n.context);
    var stack := both[parent].stack;
    InheritedReads(order, stack, n.functionName);
    UpdateBelow(order, both, child,
                both[child].(stack := Inherited(order, stack, n.functionName), maxDepth := |stack|));
  }

  lemma {:induction false} StepRows(order: seq<Node>, s: TraceState, n: Node, at: nat)
    requires RowsOk(order, s.contexts) && at < |order|
    ensures RowsOk(order, Step(order, s, n, at).contexts)
  {
    if n.kind == ForkRecord {
      ForkOnStacks(order, s, n, n.pid, n.context);
      ForkBelowLength(order, s, n);
    } else if n.kind == CallRecord {
      StepOnStacks(order, s, n, at, n.pid, n.context);
      StepBelowLength(order, s, n, at);
    }
  }

  lemma {:induction false} NoRowsOk(order: seq<Node>)
    ensures RowsOk(order, Run(order, 0).contexts)
  {}

  lemma {:induction false} RunRows(order: seq<Node>, k: nat)
    requires k <= |order|
    ensures RowsOk(order, Run(order, k).contexts)
  {
    hide Step, RowsOk;
    NoRowsOk(order);
    if k > 0 {
      RunRows(order, k - 1);
      StepRows(order, Run(order, k - 1), order[k - 1], k - 1);
    }
  }

  lemma {:induction false} StackBelowLength(order: seq<Node>, contexts: seq<Context>, p: int, c: nat)
    requires BelowLength(order, contexts)
    ensures forall v :: v in StackOf(contexts, p, c) ==> v < |order|
  {}

  /** A call that is not reported does to the stack what the machine does. */
  lemma {:induction false} CleanStepReads(order: seq<Node>, s: TraceState, k: nat, p: int, c: nat)
    requires k < |order| && order[k].kind == CallRecord && DistinctRows(s.contexts)
    requires Step(order, s, order[k], k).findings == s.findings
    requires forall v :: v in StackOf(s.contexts, p, c) ==> v < |order|
    requires forall v :: v in StackOf(Step(order, s, order[k], k).contexts, p, c) ==> v < |order|
    requires Reading(order, k, p, c) == Some(Identities(order, StackOf(s.contexts, p, c)))
    ensures Reading(order, k + 1, p, c) == Some(Identities(order, StackOf(Step(order, s, order[k], k).contexts, p, c)))
  {
    var n, stack := order[k], StackOf(s.contexts, p, c);
    ReadingNext(order, k, p, c);
    StepFindings(order, s, n, k);
    StepOnStacks(order, s, n, k, p, c);
    if IsCallOf(n, p, c) {
      MachineOne(Identities(order, stack), BracketOf(n));
      if n.callKind == CallKind.Enter {
        IdentitiesPush(order, stack, k);
      } else {
        assert forall v :: v in Pop(stack) ==> v in stack;
        assert Identities(order, Pop(stack)) == Identities(order, stack)[..|stack| - 1];
      }
    }
  }

  lemma {:induction false} InheritedReads(order: seq<Node>, stack: seq<nat>, forkName: string)
    requires forall v :: v in stack ==> v < |order|
    ensures forall v :: v in Inherited(order, stack, forkName) ==> v < |order|
    ensures Identities(order, Inherited(order, stack, forkName)) == WithoutWrapper(Identities(order, stack), forkName)
  {
    if stack != [] {
      assert Top(stack) in stack;
      assert forall v :: v in Pop(stack) ==> v in stack;
      assert Identities(order, Pop(stack)) == Identities(order, stack)[..|stack| - 1];
    }
  }

  ghost predicate Reads(order: seq<Node>, k: nat, p: int, c: nat)
    requires k <= |order|
  {
    var stack := StackOf(Run(order, k).contexts, p, c);
    (forall v :: v in stack ==> v < |order|) && Reading(order, k, p, c) == Some(Identities(order, stack))
  }

  lemma {:induction false} ForkReads(order: seq<Node>, k: nat, p: int, c: nat)
    requires k < |order| && order[k].kind == ForkRecord && DistinctRows(Run(order, k).contexts)
    requires Reads(order, k, order[k].pid, order[k].context) && Reads(order, k, p, c)
    ensures Reads(order, k + 1, p, c)
  {
    var s, n := Run(order, k), order[k];
    ForkOnStacks(order, s, n, p, c);
    if IsForkInto(n, p, c) {
      ReadingAtFork(order, k, p, c);
      InheritedReads(order, StackOf(s.contexts, n.pid, n.context), n.functionName);
    } else {
      ReadingNext(order, k, p, c);
    }
  }

  lemma {:induction false} NothingReadYet(order: seq<Node>, p: int, c: nat)
    ensures Reads(order, 0, p, c)
  {
    assert Identities(order, StackOf(Run(order, 0).contexts, p, c)) == [];
  }

  lemma {:induction false} CallReads(order: seq<Node>, k: nat, p: int, c: nat)
    requires k < |order| && order[k].kind == CallRecord && RowsOk(order, Run(order, k).contexts)
             && Reads(order, k, p, c)
    requires Run(order, k).findings == [] && Run(order, k + 1).findings == []
    ensures Reads(order, k + 1, p, c)
  {
    var s := Run(order, k);
    StepRows(order, s, order[k], k);
    StackBelowLength(order, Run(order, k + 1).contexts, p, c);
    CleanStepReads(order, s, k, p, c);
  }

  lemma {:induction false} OtherReads(order: seq<Node>, k: nat, p: int, c: nat)
    requires k < |order| && order[k].kind != CallRecord && order[k].kind != ForkRecord && Reads(order, k, p, c)
    ensures Reads(order, k + 1, p, c)
  {
    ReadingNext(order, k, p, c);
  }

  lemma {:induction false} RowsAreDistinct(order: seq<Node>, contexts: seq<Context>)
    requires RowsOk(order, contexts)
    ensures DistinctRows(contexts)
  {}

  /** While nothing is reported, every stack is what the machine reads. */
  lemma {:induction false} CleanRunReads(order: seq<Node>, k: nat, p: int, c: nat)
    requires k <= |order| && Run(order, k).findings == []
    ensures Reads(order, k, p, c)
  {
    hide Step, Reads, RowsOk;
    if k == 0 {
      NothingReadYet(order, p, c);
    } else {
      var n := order[k - 1];
      FindingsStay(order, k - 1, k);
      RunRows(order, k - 1);
      RowsAreDistinct(order, Run(order, k - 1).contexts);
      CleanRunReads(order, k - 1, p, c);
      if n.kind == ForkRecord {
        CleanRunReads(order, k - 1, n.pid, n.context);
        ForkReads(order, k - 1, p, c);
      } else if n.kind == CallRecord {
        CallReads(order, k - 1, p, c);
      } else {
        OtherReads(order, k - 1, p, c);
      }
    }
  }

  /** A trace without findings had none before. */
  lemma {:induction false} FindingsStay(order: seq<Node>, j: nat, k: nat)
    requires j <= k <= |order|
    ensures |Run(order, j).findings| <= |Run(order, k).findings|
    decreases k
  {
    hide Step;
    if j < k {
      FindingsStay(order, j, k - 1);
      RunRows(order, k - 1);
      StepKeepsFindings(order, Run(order, k - 1), order[k - 1], k - 1);
    }
  }

  lemma {:induction false} StepKeepsFindings(order: seq<Node>, s: TraceState, n: Node, at: nat)
    requires DistinctRows(s.contexts)
    ensures |Step(order, s, n, at).findings| >= |s.findings|
    ensures n.kind != CallRecord ==> Step(order, s, n, at).findings == s.findings
  {
    if n.kind == CallRecord {
      StepFindings(order, s, n, at);
    }
  }

  /** The first finding comes where some context cannot be read any more. */
  lemma {:induction false} ReportedRunIsStuck(order: seq<Node>, k: nat) returns (j: nat, p: int, c: nat)
    requires k <= |order| && Run(order, k).findings != []
    ensures j <= k && Reading(order, j, p, c) == None
  {
    hide Step;
    var s, n := Run(order, k - 1), order[k - 1];
    if s.findings != [] {
      j, p, c := ReportedRunIsStuck(order, k - 1);
    } else {
      j, p, c := k, n.pid, n.context;
      FirstReportIsStuck(order, k - 1);
    }
  }

  /** An exit that its stack does not match cannot be read. */
  lemma {:induction false} UnmatchedExitIsStuck(order: seq<Node>, stack: seq<nat>, n: Node)
    requires (forall v :: v in stack ==> v < |order|) && n.callKind == CallKind.Exit && !TopMatches(order, stack, n)
    ensures Machine(Identities(order, stack), [BracketOf(n)]) == None
  {
    MachineOne(Identities(order, stack), BracketOf(n));
    if stack != [] {
      assert Top(stack) in stack;
      assert Identities(order, stack)[|stack| - 1] == IdentityOf(order[Top(stack)]);
    }
  }

  lemma {:induction false} FirstReportIsStuck(order: seq<Node>, k: nat)
    requires k < |order| && Run(order, k).findings == [] && Run(order, k + 1).findings != []
    ensures Reading(order, k + 1, order[k].pid, order[k].context) == None
  {
    var s, n := Run(order, k), order[k];
    RunRows(order, k);
    StepKeepsFindings(order, s, n, k);
    StepFindings(order, s, n, k);
    CleanRunReads(order, k, n.pid, n.context);
    ReadingNext(order, k, n.pid, n.context);
    UnmatchedExitIsStuck(order, StackOf(s.contexts, n.pid, n.context), n);
  }

  lemma {:induction false} NothingOpen(contexts: seq<Context>)
    ensures AllOpenCalls(contexts) == [] <==> forall i :: 0 <= i < |contexts| ==> contexts[i].stack == []
  {
    if contexts != [] {
      var n := |contexts| - 1;
      NothingOpen(contexts[..n]);
      assert forall i :: 0 <= i < n ==> contexts[..n][i] == contexts[i];
    }
  }

  ghost predicate AllBalanced(order: seq<Node>) {
    forall p: int, c: nat :: Balanced(Word(order, |order|, p, c))
  }

  /** No context's calls are ever out of order, not even before a fork makes
      the context begin anew. */
  ghost predicate AllReadable(order: seq<Node>) {
    forall k: nat, p: int, c: nat :: k <= |order| ==> Reading(order, k, p, c) != None
  }

  lemma {:induction false} CleanTraceIsBalanced(order: seq<Node>, p: int, c: nat)
    requires Analyze(order) == []
    ensures Balanced(Word(order, |order|, p, c))
  {
    var s := Run(order, |order|);
    NoneOpenAtEnd(s);
    assert StackOf(s.contexts, p, c) == [];
    CleanRunReads(order, |order|, p, c);
    assert Identities(order, []) == [];
    MachineDecidesBalance(Word(order, |order|, p, c));
  }

  lemma {:induction false} NoneOpenAtEnd(s: TraceState)
    requires s.findings + AllOpenCalls(s.contexts) == []
    ensures s.findings == [] && forall i :: 0 <= i < |s.contexts| ==> s.contexts[i].stack == []
  {
    assert |s.findings + AllOpenCalls(s.contexts)| == |s.findings| + |AllOpenCalls(s.contexts)|;
    NothingOpen(s.contexts);
  }

  lemma {:induction false} BalancedTraceIsClean(order: seq<Node>)
    requires AllReadable(order) && AllBalanced(order)
    ensures Analyze(order) == []
  {
    var n := |order|;
    var s := Run(order, n);
    RunRows(order, n);
    if s.findings != [] {
      var j, p, c := ReportedRunIsStuck(order, n);
    }
    forall i | 0 <= i < |s.contexts|
      ensures s.contexts[i].stack == []
    {
      var p, c := s.contexts[i].pid, s.contexts[i].context;
      CleanRunReads(order, n, p, c);
      MachineDecidesBalance(Word(order, n, p, c));
      assert |Identities(order, StackOf(s.contexts, p, c))| == |s.contexts[i].stack|;
    }
    NothingOpen(s.contexts);
  }

  /** There is no trace finding if and only if every context's calls, those it
      inherits by a fork included, can be read throughout and are balanced. */
  lemma {:induction false} CleanTraceIffReadable(order: seq<Node>)
    ensures Analyze(order) == [] <==> AllReadable(order) && AllBalanced(order)
  {
    if Analyze(order) == [] {
      forall p: int, c: nat
        ensures Balanced(Word(order, |order|, p, c))
      {
        CleanTraceIsBalanced(order, p, c);
      }
      forall k: nat, p: int, c: nat | k <= |order|
        ensures Reading(order, k, p, c) != None
      {
        FindingsStay(order, k, |order|);
        CleanRunReads(order, k, p, c);
      }
    }
    if AllReadable(order) && AllBalanced(order) {
      BalancedTraceIsClean(order);
    }
  }

  /** Without forks a word that can be read could be read at every place. */
  lemma {:induction false} ReadableThroughout(order: seq<Node>, j: nat, k: nat, p: int, c: nat)
    requires j <= k <= |order| && NoForks(order) && Reading(order, k, p, c) != None
    ensures Reading(order, j, p, c) != None
    decreases k
  {
    if j < k {
      assert order[k - 1] in order;
      ReadingNext(order, k - 1, p, c);
      ReadableThroughout(order, j, k - 1, p, c);
    }
  }

  /** On streams without forks there is no trace finding if and only if every
      context's calls form a balanced word. */
  lemma {:induction false} CleanTraceIffBalanced(order: seq<Node>)
    requires NoForks(order)
    ensures Analyze(order) == [] <==> AllBalanced(order)
  {
    CleanTraceIffReadable(order);
    if AllBalanced(order) {
      forall k: nat, p: int, c: nat | k <= |order|
        ensures Reading(order, k, p, c) != None
      {
        MachineDecidesBalance(Word(order, |order|, p, c));
        ReadableThroughout(order, k, |order|, p, c);
      }
    }
  }
}
