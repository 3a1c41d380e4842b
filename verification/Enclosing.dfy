/** The enclosing call that a search by sequence number finds is the innermost
    call open at the record, on well-nested calls with rising numbers. */
module Enclosing {
  import opened CallEdges
  import opened CallMatching
  import opened Events
  import opened Lifetimes
  import opened LogArcs

  // ---------- When a call was matched ----------

  /** What the pass has matched at k, told from what it matches in the end. */
  predicate MatchedBy(last: nat, now: nat, k: nat) {
    now == if last < k then last else SIZE_MAX
  }

  lemma {:induction false} StepMatches(nodes: seq<Node>, s: CallState, i: nat, c: nat)
    requires c < |nodes| == |s.matched| && i < |nodes| < SIZE_MAX
    ensures Step(nodes, s, i).matched[c] == s.matched[c]
            || (s.matched[c] == SIZE_MAX && Step(nodes, s, i).matched[c] == i)
    ensures Step(nodes, s, i).matched[c] != s.matched[c] ==> IsExit(nodes[i]) && SameContext(nodes[c], nodes[i])
  {}

  lemma {:induction false} MatchIsExit(nodes: seq<Node>, k: nat, c: nat)
    requires c < |nodes| && k <= |nodes| < SIZE_MAX
    ensures var m := Pass(nodes, k).matched[c];
            m == SIZE_MAX || (m < k && IsExit(nodes[m]) && SameContext(nodes[c], nodes[m]))
  {
    hide Step;
    if k > 0 {
      MatchIsExit(nodes, k - 1, c);
      StepMatches(nodes, Pass(nodes, k - 1), k - 1, c);
    }
  }

  lemma {:induction false} MatchesStay(nodes: seq<Node>, j: nat, k: nat, c: nat)
    requires c < |nodes| && j <= k <= |nodes| < SIZE_MAX
    ensures MatchedBy(Pass(nodes, k).matched[c], Pass(nodes, j).matched[c], j)
    decreases k
  {
    hide Step;
    if j < k {
      MatchesStay(nodes, j, k - 1, c);
      StepMatches(nodes, Pass(nodes, k - 1), k - 1, c);
    }
    MatchIsExit(nodes, j, c);
  }

  // ---------- Surrounding calls are the open ones ----------

  /** The calls of a record's context before place k are those with a smaller
      number than the record, wherever the record stands in the log. */
  ghost predicate CallsBefore(nodes: seq<Node>, r: nat, k: nat) {
    r < |nodes| && k <= |nodes|
    && forall c :: 0 <= c < |nodes| && nodes[c].kind == CallRecord && SameContext(nodes[c], nodes[r]) ==>
         (c < k <==> nodes[c].sequence < nodes[r].sequence)
  }

  /** Some place divides the calls so. */
  lemma {:induction false} CallsBeforeExists(nodes: seq<Node>, r: nat, n: nat) returns (k: nat)
    requires r < |nodes| && n <= |nodes| && ContextsNumbered(nodes)
    ensures k <= n
    ensures forall c :: 0 <= c < n && nodes[c].kind == CallRecord && SameContext(nodes[c], nodes[r]) ==>
                          (c < k <==> nodes[c].sequence < nodes[r].sequence)
  {
    if n == 0 {
      k := 0;
    } else {
      k := CallsBeforeExists(nodes, r, n - 1);
      var last := nodes[n - 1];
      if last.kind == CallRecord && SameContext(last, nodes[r]) && last.sequence < nodes[r].sequence {
        forall c | 0 <= c < n && nodes[c].kind == CallRecord && SameContext(nodes[c], nodes[r])
          ensures nodes[c].sequence < nodes[r].sequence
        {
          assert c < n - 1 ==> SameContext(nodes[c], last);
        }
        k := n;
      }
    }
  }

  lemma {:induction false} SurroundsIffOpen(nodes: seq<Node>, r: nat, k: nat, c: nat)
    requires r < |nodes| < SIZE_MAX && c < |nodes| && nodes[r].kind != CallRecord
    requires ContextsNumbered(nodes) && WellNested(nodes) && CallsBefore(nodes, r, k)
    ensures Surrounds(nodes, Pass(nodes, |nodes|).matched, c, nodes[r])
            <==> c in OpenAt(nodes, k, nodes[r].pid, nodes[r].context)
  {
    hide Pass, Step, OpenAt, WellNested;
    var n, last := nodes[r], Pass(nodes, |nodes|).matched[c];
    OpenOrdered(nodes, k, n.pid, n.context);
    UnmatchedStayOpen(nodes, k);
    MatchIsExit(nodes, |nodes|, c);
    MatchesStay(nodes, k, |nodes|, c);
    if IsEnter(nodes[c]) && SameContext(nodes[c], n) {
      assert c != r && nodes[c].sequence != n.sequence;
      if last != SIZE_MAX {
        assert last != r && SameContext(nodes[last], n) && nodes[last].sequence != n.sequence;
      }
      if c < k {
        assert UnmatchedIffOpen(nodes, Pass(nodes, k).matched, k, c);
      }
    }
  }

  /** The innermost call of a context open at place k, or SIZE_MAX. */
  function Innermost(nodes: seq<Node>, k: nat, pid: int, context: nat): nat
    requires k <= |nodes|
  {
    var open := OpenAt(nodes, k, pid, context);
    if open == [] then SIZE_MAX else open[|open| - 1]
  }

  lemma {:induction false} InnermostEncloses(nodes: seq<Node>, r: nat, k: nat)
    requires r < |nodes| < SIZE_MAX && nodes[r].kind != CallRecord
    requires ContextsNumbered(nodes) && WellNested(nodes) && CallsBefore(nodes, r, k)
    ensures IsEnclosing(nodes, Pass(nodes, |nodes|).matched, nodes[r], |nodes|,
                        Innermost(nodes, k, nodes[r].pid, nodes[r].context))
  {
    hide Pass, OpenAt, WellNested, Surrounds;
    var n, matched := nodes[r], Pass(nodes, |nodes|).matched;
    var open := OpenAt(nodes, k, n.pid, n.context);
    OpenOrdered(nodes, k, n.pid, n.context);
    forall c: nat | c < |nodes|
      ensures Surrounds(nodes, matched, c, n) <==> c in open
    {
      SurroundsIffOpen(nodes, r, k, c);
    }
    if open != [] {
      assert open[|open| - 1] in open;
      forall c: nat | c in open
        ensures c == open[|open| - 1] || nodes[c].sequence < nodes[open[|open| - 1]].sequence
      {
        OpenSequences(nodes, open, k, n.pid, n.context, c);
      }
    }
  }

  lemma {:induction false} OpenSequences(nodes: seq<Node>, open: seq<nat>, k: nat, pid: int, context: nat, c: nat)
    requires ContextsNumbered(nodes) && OpenOrder(nodes, open, k, pid, context) && c in open
    ensures open[|open| - 1] < |nodes| && c < |nodes|
    ensures c == open[|open| - 1] || nodes[c].sequence < nodes[open[|open| - 1]].sequence
  {
    var a :| 0 <= a < |open| && open[a] == c;
  }

  /** A record's enclosing call is the innermost call of its context open at the
      record's number, wherever the record stands in the log. */
  lemma {:induction false} EnclosingIsInnermost(nodes: seq<Node>, r: nat, k: nat, c: nat)
    requires r < |nodes| < SIZE_MAX && nodes[r].kind != CallRecord
    requires ContextsNumbered(nodes) && WellNested(nodes) && CallsBefore(nodes, r, k)
    ensures IsEnclosing(nodes, Pass(nodes, |nodes|).matched, nodes[r], |nodes|, c)
            <==> c == Innermost(nodes, k, nodes[r].pid, nodes[r].context)
  {
    hide WellNested, Innermost, IsEnclosing, Pass;
    InnermostEncloses(nodes, r, k);
    if IsEnclosing(nodes, Pass(nodes, |nodes|).matched, nodes[r], |nodes|, c) {
      EnclosingUnique(nodes, Pass(nodes, |nodes|).matched, nodes[r], c,
                      Innermost(nodes, k, nodes[r].pid, nodes[r].context));
    }
  }

  /** So a finished model joins every record that is no call to that call, and
      joins it to no other. */
  lemma {:induction false} EnclosingEdges(nodes: seq<Node>, edges: seq<ModelEdge>, r: nat, k: nat, c: nat)
    requires r < |nodes| < SIZE_MAX && nodes[r].kind != CallRecord && Built(nodes, edges)
    requires ContextsNumbered(nodes) && WellNested(nodes) && CallsBefore(nodes, r, k)
    ensures ModelEdge(CallCausedEvent, c, r) in edges
            <==> c < |nodes| && c == Innermost(nodes, k, nodes[r].pid, nodes[r].context)
  {
    hide WellNested, Innermost, Pass, CallsBefore, IsEnclosing, ContextsNumbered;
    var e := ModelEdge(CallCausedEvent, c, r);
    EnclosingIsInnermost(nodes, r, k, c);
    PassMatches(nodes, |nodes|);
    assert !IsCallEdge(e);
    assert BuiltEdge(nodes, e) <==> ResourceEdge(nodes, Pass(nodes, |nodes|).matched, e);
  }
}
