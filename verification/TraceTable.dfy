/** The trace analysis has one table row per context that some node names; the
    table has room for as many rows as there are nodes. */
module TraceTable {
  import opened Events
  import opened TraceSpec
  import opened TraceTheorems

  /** The contexts that a node looks up. */
  function NamesOf(n: Node): set<(int, nat)> {
    if n.kind == ForkRecord then {(n.pid, n.context), (n.childPid, n.context)}
    else if n.kind == CallRecord then {(n.pid, n.context)}
    else {}
  }

  function Named(order: seq<Node>, k: nat): set<(int, nat)>
    requires k <= |order|
  {
    if k == 0 then {} else Named(order, k - 1) + NamesOf(order[k - 1])
  }

  ghost function KeysOf(contexts: seq<Context>): set<(int, nat)> {
    set c | c in contexts :: (c.pid, c.context)
  }

  lemma {:induction false} KeysAppend(contexts: seq<Context>, c: Context)
    ensures KeysOf(contexts + [c]) == KeysOf(contexts) + {(c.pid, c.context)}
  {
    assert forall x :: x in contexts + [c] <==> x in contexts || x == c;
  }

  lemma {:induction false} KeysUpdate(contexts: seq<Context>, i: nat, c: Context)
    requires i < |contexts| && c.pid == contexts[i].pid && c.context == contexts[i].context
    ensures KeysOf(contexts[i := c]) == KeysOf(contexts)
  {
    var after := contexts[i := c];
    forall key | key in KeysOf(contexts)
      ensures key in KeysOf(after)
    {
      var j :| 0 <= j < |contexts| && (contexts[j].pid, contexts[j].context) == key;
      assert after[j] in after;
    }
    forall key | key in KeysOf(after)
      ensures key in KeysOf(contexts)
    {
      var j :| 0 <= j < |after| && (after[j].pid, after[j].context) == key;
      assert contexts[j] in contexts;
    }
  }

  lemma {:induction false} WithContextKeys(contexts: seq<Context>, pid: int, context: nat)
    ensures KeysOf(WithContext(contexts, pid, context)) == KeysOf(contexts) + {(pid, context)}
  {
    var i := IndexOf(contexts, pid, context);
    if i < |contexts| {
      assert contexts[i] in contexts;
    } else {
      KeysAppend(contexts, Context(pid, context, [], 0, 0, 0));
    }
  }

  lemma {:induction false} KeysCount(contexts: seq<Context>)
    requires DistinctRows(contexts)
    ensures |KeysOf(contexts)| == |contexts|
  {
    if contexts == [] {
      assert KeysOf(contexts) == {};
    } else {
      var n := |contexts| - 1;
      var init, c := contexts[..n], contexts[n];
      assert contexts == init + [c];
      forall i | 0 <= i < n
        ensures IndexOf(init, init[i].pid, init[i].context) == i && (init[i].pid, init[i].context) != (c.pid, c.context)
      {
        assert contexts[i] == init[i];
        IndexOfAppend(init, c, init[i].pid, init[i].context);
      }
      KeysCount(init);
      KeysAppend(init, c);
    }
  }

  lemma {:induction false} StepKeys(order: seq<Node>, s: TraceState, n: Node, at: nat)
    ensures KeysOf(Step(order, s, n, at).contexts) == KeysOf(s.contexts) + NamesOf(n)
  {
    if n.kind == ForkRecord {
      var first := WithContext(s.contexts, n.pid, n.context);
      var child, both := IndexOf(first, n.childPid, n.context), WithContext(first, n.childPid, n.context);
      WithContextKeys(s.contexts, n.pid, n.context);
      WithContextKeys(first, n.childPid, n.context);
      KeysUpdate(both, child, Fork(order, s, n).contexts[child]);
    } else if n.kind == CallRecord {
      WithContextKeys(s.contexts, n.pid, n.context);
      var row := StepRewritesRow(order, s, n, at);
      KeysUpdate(WithContext(s.contexts, n.pid, n.context), IndexOf(s.contexts, n.pid, n.context), row);
    }
  }

  lemma {:induction false} TableIsNamed(order: seq<Node>, k: nat)
    requires k <= |order|
    ensures KeysOf(Run(order, k).contexts) == Named(order, k)
  {
    hide Step, NamesOf;
    if k > 0 {
      TableIsNamed(order, k - 1);
      StepKeys(order, Run(order, k - 1), order[k - 1], k - 1);
    }
  }

  /** So the table has room exactly when no more contexts are named than there
      are nodes. */
  lemma {:induction false} RowsAreNamedContexts(order: seq<Node>)
    ensures |Run(order, |order|).contexts| == |Named(order, |order|)|
  {
    RunRows(order, |order|);
    KeysCount(Run(order, |order|).contexts);
    TableIsNamed(order, |order|);
  }

  /** A log that consists of one fork record names two contexts. */
  lemma {:induction false} LoneForkOverflows(n: Node)
    requires n.kind == ForkRecord && n.childPid != n.pid
    ensures |Run([n], 1).contexts| == 2
  {
    assert Named([n], 1) == {(n.pid, n.context), (n.childPid, n.context)};
    RowsAreNamedContexts([n]);
  }
}
