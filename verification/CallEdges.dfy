/** build_call_edges: call entries and exits are matched by searching backwards
    for an unmatched entry. On well-nested calls that is bracket matching. */
module CallEdges {
  import opened CallMatching
  import opened Events
  import opened Wrappers
  import opened CallWords

  // ---------- The search and the pass ----------

  predicate IsEnter(n: Node) {
    n.kind == CallRecord && n.callKind == Enter
  }

  predicate IsExit(n: Node) {
    n.kind == CallRecord && n.callKind == Exit
  }

  predicate Candidate(nodes: seq<Node>, matched: seq<nat>, c: nat, n: Node, requireName: bool)
    requires c < |nodes| == |matched|
  {
    IsEnter(nodes[c]) && matched[c] == SIZE_MAX && SameContext(nodes[c], n)
      && (!requireName || nodes[c].callName == n.callName)
  }

  /** The newest unmatched entry below k in the node's context, or SIZE_MAX. */
  function ActiveEnter(nodes: seq<Node>, matched: seq<nat>, k: nat, n: Node, requireName: bool): (r: nat)
    requires k <= |nodes| == |matched|
    ensures r == SIZE_MAX || (r < k && Candidate(nodes, matched, r, n, requireName))
  {
    if k == 0 then SIZE_MAX
    else if Candidate(nodes, matched, k - 1, n, requireName) then k - 1
    else ActiveEnter(nodes, matched, k - 1, n, requireName)
  }

  datatype CallState = CallState(matched: seq<nat>, edges: seq<ModelEdge>)

  function Step(nodes: seq<Node>, s: CallState, i: nat): CallState
    requires i < |nodes| == |s.matched|
  {
    var n := nodes[i];
    if n.kind != CallRecord then s
    else if n.callKind == Enter then
      var parent := ActiveEnter(nodes, s.matched, i, n, false);
      if parent == SIZE_MAX then s else s.(edges := s.edges + [ModelEdge(CallParent, parent, i)])
    else
      var enter := ActiveEnter(nodes, s.matched, i, n, true);
      if enter == SIZE_MAX then s
      else CallState(s.matched[enter := i], s.edges + [ModelEdge(CallReturn, enter, i)])
  }

  function Pass(nodes: seq<Node>, k: nat): (s: CallState)
    requires k <= |nodes|
    ensures |s.matched| == |nodes|
  {
    if k == 0 then CallState(seq(|nodes|, _ => SIZE_MAX), []) else Step(nodes, Pass(nodes, k - 1), k - 1)
  }

  method FindActiveEnter(nodes: seq<Node>, matchedExit: array<nat>, nodeIndex: nat, requireName: bool) returns (r: nat)
    requires nodeIndex < |nodes| == matchedExit.Length
    ensures r == ActiveEnter(nodes, matchedExit[..], nodeIndex, nodes[nodeIndex], requireName)
  {
    var cursor := nodeIndex;
    while cursor > 0 && !Candidate(nodes, matchedExit[..], cursor - 1, nodes[nodeIndex], requireName)
      invariant 0 <= cursor <= nodeIndex
      invariant ActiveEnter(nodes, matchedExit[..], cursor, nodes[nodeIndex], requireName)
                == ActiveEnter(nodes, matchedExit[..], nodeIndex, nodes[nodeIndex], requireName)
    {
      cursor := cursor - 1;
    }
    r := if cursor > 0 then cursor - 1 else SIZE_MAX;
  }

  method BuildCallEdges(nodes: seq<Node>) returns (edges: seq<ModelEdge>, matchedExit: array<nat>)
    requires |nodes| < SIZE_MAX
    ensures matchedExit.Length == |nodes| && fresh(matchedExit)
    ensures CallState(matchedExit[..], edges) == Pass(nodes, |nodes|)
    ensures CallsMatched(nodes, edges) && forall e :: e in edges ==> IsCallEdge(e)
    ensures ExitsAreReturns(edges, matchedExit[..])
  {
    matchedExit := new nat[|nodes|](_ => SIZE_MAX);
    edges := [];
    var index := 0;
    assert matchedExit[..] == Pass(nodes, 0).matched;
    while index < |nodes|
      invariant index <= |nodes| && CallState(matchedExit[..], edges) == Pass(nodes, index)
    {
      var node := nodes[index];
      if node.kind == CallRecord {
        if node.callKind == Enter {
          var parent := FindActiveEnter(nodes, matchedExit, index, false);
          if parent != SIZE_MAX {
            edges := edges + [ModelEdge(CallParent, parent, index)];
          }
        } else {
          var enter := FindActiveEnter(nodes, matchedExit, index, true);
          if enter != SIZE_MAX {
            matchedExit[enter] := index;
            edges := edges + [ModelEdge(CallReturn, enter, index)];
          }
        }
      }
      index := index + 1;
    }
    PassMatches(nodes, index);
  }

  // ---------- Every input ----------

  /** matched_exit names the record that returned to an entry. */
  ghost predicate ExitsAreReturns(edges: seq<ModelEdge>, matched: seq<nat>) {
    forall c: nat, i: nat :: c < |matched| && i != SIZE_MAX ==>
                               (matched[c] == i <==> ModelEdge(CallReturn, c, i) in edges)
  }

  /** The pass is right about the records before k. */
  ghost predicate RightUpTo(nodes: seq<Node>, s: CallState, k: nat) {
    && (forall e :: e in s.edges ==> IsCallEdge(e) && e.from < e.to < k)
    && (forall e :: IsCallEdge(e) && e.to < k ==> (e in s.edges <==> RightEdge(nodes, s.edges, e)))
    && ExitsAreReturns(s.edges, s.matched)
  }

  lemma {:induction false} ActiveEnterIsNewest(nodes: seq<Node>, matched: seq<nat>, k: nat, n: Node, requireName: bool,
                                               c: nat)
    requires c < k <= |nodes| == |matched| && Candidate(nodes, matched, c, n, requireName)
    ensures c <= ActiveEnter(nodes, matched, k, n, requireName) < k
  {
    if c < k - 1 {
      ActiveEnterIsNewest(nodes, matched, k - 1, n, requireName, c);
    }
  }

  /** A candidate of the search is an entry that was not returned to yet. */
  lemma {:induction false} CandidateIsOpen(nodes: seq<Node>, s: CallState, k: nat, c: nat)
    requires k < |nodes| == |s.matched| && |nodes| < SIZE_MAX && c < |nodes| && RightUpTo(nodes, s, k)
    ensures c < k && Candidate(nodes, s.matched, c, nodes[k], false) <==> OpenFor(nodes, s.edges, c, k)
    ensures c < k && Candidate(nodes, s.matched, c, nodes[k], true) <==> NamedFor(nodes, s.edges, c, k)
  {
    var m := s.matched[c];
    if m == SIZE_MAX {
      forall j: nat | j < k
        ensures ModelEdge(CallReturn, c, j) !in s.edges
      {}
    } else {
      assert ModelEdge(CallReturn, c, m) in s.edges;
    }
  }

  lemma {:induction false} SearchIsRight(nodes: seq<Node>, s: CallState, k: nat, c: nat)
    requires k < |nodes| == |s.matched| && |nodes| < SIZE_MAX && RightUpTo(nodes, s, k)
    ensures EntersCall(nodes[k]) ==>
              (CalledFrom(nodes, s.edges, c, k)
               <==> c != SIZE_MAX && c == ActiveEnter(nodes, s.matched, k, nodes[k], false))
    ensures LeavesCall(nodes[k]) ==>
              (ReturnsTo(nodes, s.edges, c, k)
               <==> c != SIZE_MAX && c == ActiveEnter(nodes, s.matched, k, nodes[k], true))
  {
    hide RightUpTo, Candidate, OpenFor, NamedFor;
    forall d: nat | d < |nodes|
      ensures d < k && Candidate(nodes, s.matched, d, nodes[k], false) <==> OpenFor(nodes, s.edges, d, k)
      ensures d < k && Candidate(nodes, s.matched, d, nodes[k], true) <==> NamedFor(nodes, s.edges, d, k)
    {
      CandidateIsOpen(nodes, s, k, d);
    }
    forall d: nat
      ensures OpenFor(nodes, s.edges, d, k) ==> d < k && d <= ActiveEnter(nodes, s.matched, k, nodes[k], false) < k
      ensures NamedFor(nodes, s.edges, d, k) ==> d < k && d <= ActiveEnter(nodes, s.matched, k, nodes[k], true) < k
    {
      OpenIsEarlier(nodes, s.edges, d, k);
      if OpenFor(nodes, s.edges, d, k) {
        ActiveEnterIsNewest(nodes, s.matched, k, nodes[k], false, d);
      }
      if NamedFor(nodes, s.edges, d, k) {
        ActiveEnterIsNewest(nodes, s.matched, k, nodes[k], true, d);
      }
    }
  }

  lemma {:induction false} OpenIsEarlier(nodes: seq<Node>, edges: seq<ModelEdge>, c: nat, i: nat)
    ensures NamedFor(nodes, edges, c, i) ==> OpenFor(nodes, edges, c, i)
    ensures OpenFor(nodes, edges, c, i) ==> c < i < |nodes|
  {}

  lemma {:induction false} StepIsRight(nodes: seq<Node>, s: CallState, k: nat)
    requires k < |nodes| == |s.matched| && |nodes| < SIZE_MAX && RightUpTo(nodes, s, k)
    ensures RightUpTo(nodes, Step(nodes, s, k), k + 1)
  {
    hide RightEdge, ActiveEnter, Candidate, ExitsAreReturns;
    var t := Step(nodes, s, k);
    StepKeepsExits(nodes, s, k);
    forall e | IsCallEdge(e) && e.to == k
      ensures RightEdge(nodes, s.edges, e) <==> e in t.edges
    {
      SearchIsRight(nodes, s, k, e.from);
      RightEdgeInParts(nodes, s.edges, e);
    }
    forall e | IsCallEdge(e) && e.to < k + 1
      ensures e in t.edges <==> RightEdge(nodes, t.edges, e)
    {
      SameMatches(nodes, s.edges, t.edges, e);
    }
  }

  lemma {:induction false} StepKeepsExits(nodes: seq<Node>, s: CallState, k: nat)
    requires k < |nodes| == |s.matched| && |nodes| < SIZE_MAX && ExitsAreReturns(s.edges, s.matched)
    requires forall e :: e in s.edges ==> e.to < k
    ensures ExitsAreReturns(Step(nodes, s, k).edges, Step(nodes, s, k).matched)
  {
    hide ActiveEnter;
    var t := Step(nodes, s, k);
    forall c: nat, i: nat | c < |t.matched| && i != SIZE_MAX
      ensures t.matched[c] == i <==> ModelEdge(CallReturn, c, i) in t.edges
    {
      assert s.matched[c] == i <==> ModelEdge(CallReturn, c, i) in s.edges;
    }
  }

  lemma {:induction false} RightEdgeInParts(nodes: seq<Node>, edges: seq<ModelEdge>, e: ModelEdge)
    requires IsCallEdge(e) && e.to < |nodes|
    ensures RightEdge(nodes, edges, e)
            <==> if e.kind == CallReturn then LeavesCall(nodes[e.to]) && ReturnsTo(nodes, edges, e.from, e.to)
                 else EntersCall(nodes[e.to]) && CalledFrom(nodes, edges, e.from, e.to)
  {}

  lemma {:induction false} PassIsRight(nodes: seq<Node>, k: nat)
    requires k <= |nodes| < SIZE_MAX
    ensures RightUpTo(nodes, Pass(nodes, k), k)
  {
    hide Step, RightEdge;
    if k > 0 {
      PassIsRight(nodes, k - 1);
      StepIsRight(nodes, Pass(nodes, k - 1), k - 1);
    }
  }

  /** The call edges of every log, whether its calls nest or not. */
  lemma {:induction false} PassMatches(nodes: seq<Node>, k: nat)
    requires k == |nodes| < SIZE_MAX
    ensures CallsMatched(nodes, Pass(nodes, k).edges) && forall e :: e in Pass(nodes, k).edges ==> IsCallEdge(e)
    ensures ExitsAreReturns(Pass(nodes, k).edges, Pass(nodes, k).matched)
  {
    hide RightEdge, Pass;
    PassIsRight(nodes, k);
    forall e | IsCallEdge(e) && e.to >= k
      ensures !RightEdge(nodes, Pass(nodes, k).edges, e)
    {
      EndsAreNodes(nodes, Pass(nodes, k).edges, e);
    }
  }

  lemma {:induction false} EndsAreNodes(nodes: seq<Node>, edges: seq<ModelEdge>, e: ModelEdge)
    ensures RightEdge(nodes, edges, e) ==> e.to < |nodes|
  {}

  ghost predicate EdgeOk(nodes: seq<Node>, k: nat, e: ModelEdge) {
    e.from < e.to < k <= |nodes| && SameContext(nodes[e.from], nodes[e.to]) && IsEnter(nodes[e.from])
    && match e.kind
       case CallReturn => IsExit(nodes[e.to]) && nodes[e.from].callName == nodes[e.to].callName
       case CallParent => IsEnter(nodes[e.to])
       case _ => false
  }

  /** No two edges of one kind share their target, no two returns their source. */
  ghost predicate NoSharing(edges: seq<ModelEdge>) {
    forall a, b :: 0 <= a < b < |edges| && edges[a].kind == edges[b].kind ==>
      edges[a].to != edges[b].to && (edges[a].kind == CallReturn ==> edges[a].from != edges[b].from)
  }

  /** Returns pair each entry with at most one later exit of its context and
      name; each call has at most one parent, which is older: a forest. */
  lemma {:induction false} EdgesAreMatchingAndForest(nodes: seq<Node>, k: nat)
    requires k <= |nodes| < SIZE_MAX
    ensures forall e :: e in Pass(nodes, k).edges ==> EdgeOk(nodes, k, e)
    ensures NoSharing(Pass(nodes, k).edges)
    ensures forall e :: e in Pass(nodes, k).edges && e.kind == CallReturn ==>
            e.from < |nodes| && Pass(nodes, k).matched[e.from] == e.to
  {
    if k > 0 {
      EdgesAreMatchingAndForest(nodes, k - 1);
      var s, t := Pass(nodes, k - 1), Pass(nodes, k);
      forall e | e in s.edges
        ensures EdgeOk(nodes, k, e)
      {
        assert EdgeOk(nodes, k - 1, e);
      }
      if |t.edges| > |s.edges| {
        var e := t.edges[|s.edges|];
        assert t.edges == s.edges + [e];
        assert EdgeOk(nodes, k, e);
        forall a | 0 <= a < |s.edges|
          ensures s.edges[a].to != e.to && (s.edges[a].kind == CallReturn == e.kind ==> s.edges[a].from != e.from)
        {
          assert s.edges[a] in s.edges && EdgeOk(nodes, k - 1, s.edges[a]);
        }
      }
    }
  }

  // ---------- Well-nested calls ----------

  function BracketOf(n: Node): Bracket<string> {
    if n.callKind == Enter then Bracket.Open(n.callName) else Bracket.Close(n.callName)
  }

  predicate InContext(n: Node, pid: int, context: nat) {
    n.kind == CallRecord && n.pid == pid && n.context == context
  }

  /** The calls of a context from node a up to node b, b excluded. */
  function CallWord(nodes: seq<Node>, a: nat, b: nat, pid: int, context: nat): seq<Bracket<string>>
    requires a <= b <= |nodes|
    decreases b - a
  {
    if a == b then []
    else
      CallWord(nodes, a, b - 1, pid, context)
        + (if InContext(nodes[b - 1], pid, context) then [BracketOf(nodes[b - 1])] else [])
  }

  /** Every exit closes the innermost open call of its context, by name. */
  ghost predicate WellNested(nodes: seq<Node>) {
    forall pid: int, context: nat :: Machine([], CallWord(nodes, 0, |nodes|, pid, context)) != None
  }

  ghost predicate BracketsMatch(nodes: seq<Node>, i: nat, j: nat) {
    i < j < |nodes| && IsEnter(nodes[i]) && IsExit(nodes[j]) && SameContext(nodes[i], nodes[j])
    && nodes[i].callName == nodes[j].callName
    && Balanced(CallWord(nodes, i + 1, j, nodes[i].pid, nodes[i].context))
  }

  /** Every call of the context that began after i and before j has ended. */
  ghost predicate ImmediatelyEncloses(nodes: seq<Node>, i: nat, j: nat) {
    i < j < |nodes| && IsEnter(nodes[i]) && IsEnter(nodes[j]) && SameContext(nodes[i], nodes[j])
    && Balanced(CallWord(nodes, i + 1, j, nodes[i].pid, nodes[i].context))
  }

  predicate IsTop(stack: seq<nat>, v: nat) {
    stack != [] && stack[|stack| - 1] == v
  }

  predicate TopIsNamed(nodes: seq<Node>, stack: seq<nat>, name: string) {
    stack != [] && stack[|stack| - 1] < |nodes| && nodes[stack[|stack| - 1]].callName == name
  }

  /** What node k does to the open calls of a context. */
  function StackAfter(nodes: seq<Node>, before: seq<nat>, k: nat, pid: int, context: nat): seq<nat>
    requires k < |nodes|
  {
    if !InContext(nodes[k], pid, context) then before
    else if nodes[k].callKind == Enter then before + [k]
    else if TopIsNamed(nodes, before, nodes[k].callName) then before[..|before| - 1]
    else before
  }

  /** The open calls of a context before node k, innermost last. */
  function OpenAt(nodes: seq<Node>, k: nat, pid: int, context: nat): seq<nat>
    requires k <= |nodes|
  {
    if k == 0 then [] else StackAfter(nodes, OpenAt(nodes, k - 1, pid, context), k - 1, pid, context)
  }

  function NameOf(nodes: seq<Node>, v: nat): string {
    if v < |nodes| then nodes[v].callName else ""
  }

  function Names(nodes: seq<Node>, stack: seq<nat>): (names: seq<string>)
    ensures |names| == |stack|
  {
    if stack == [] then [] else Names(nodes, stack[..|stack| - 1]) + [NameOf(nodes, stack[|stack| - 1])]
  }

  function ReadNode(n: Node, pid: int, context: nat, before: Option<seq<string>>): Option<seq<string>> {
    if before.None? || !InContext(n, pid, context) then before else Read(before.value, BracketOf(n))
  }

  lemma {:induction false} WordNext(nodes: seq<Node>, a: nat, b: nat, pid: int, context: nat)
    requires a <= b < |nodes|
    ensures Machine([], CallWord(nodes, a, b + 1, pid, context))
            == ReadNode(nodes[b], pid, context, Machine([], CallWord(nodes, a, b, pid, context)))
  {
    var w := CallWord(nodes, a, b, pid, context);
    if InContext(nodes[b], pid, context) {
      MachineConcat([], w, [BracketOf(nodes[b])]);
      if Machine([], w).Some? {
        MachineOne(Machine([], w).value, BracketOf(nodes[b]));
      }
    } else {
      assert w + [] == w;
    }
  }

  /** A word that can be read can be read up to any place. */
  lemma {:induction false} ReadablePrefix(nodes: seq<Node>, b: nat, c: nat, pid: int, context: nat)
    requires b <= c <= |nodes| && Machine([], CallWord(nodes, 0, c, pid, context)) != None
    ensures Machine([], CallWord(nodes, 0, b, pid, context)) != None
    decreases c
  {
    if b < c {
      WordNext(nodes, 0, c - 1, pid, context);
      ReadablePrefix(nodes, b, c - 1, pid, context);
    }
  }

  lemma {:induction false} NamesPush(nodes: seq<Node>, stack: seq<nat>, k: nat)
    ensures Names(nodes, stack + [k]) == Names(nodes, stack) + [NameOf(nodes, k)]
  {
    assert (stack + [k])[..|stack|] == stack;
  }

  lemma {:induction false} NamesPop(nodes: seq<Node>, stack: seq<nat>)
    requires stack != []
    ensures Names(nodes, stack)[|stack| - 1] == NameOf(nodes, stack[|stack| - 1])
    ensures Names(nodes, stack)[..|stack| - 1] == Names(nodes, stack[..|stack| - 1])
  {}

  /** Above a base that stays, the names of the stack follow the machine. */
  lemma {:induction false} StackFollowsMachine(nodes: seq<Node>, base: seq<nat>, above: seq<nat>, k: nat, pid: int,
                                               context: nat)
    requires k < |nodes| && ReadNode(nodes[k], pid, context, Some(Names(nodes, above))) != None
    requires forall v :: v in above ==> v < k
    ensures var after := StackAfter(nodes, above, k, pid, context);
            StackAfter(nodes, base + above, k, pid, context) == base + after
            && ReadNode(nodes[k], pid, context, Some(Names(nodes, above))) == Some(Names(nodes, after))
            && forall v :: v in after ==> v == k || v in above
  {
    var stack := base + above;
    if InContext(nodes[k], pid, context) {
      if nodes[k].callKind == Enter {
        NamesPush(nodes, above, k);
        assert base + above + [k] == base + (above + [k]);
      } else {
        NamesPop(nodes, above);
        assert above[|above| - 1] == stack[|stack| - 1] && above[|above| - 1] in above;
        assert stack[..|stack| - 1] == base + above[..|above| - 1];
      }
    }
  }

  /** Reading from a place on gives the names of the calls opened since. */
  lemma {:induction false} Relative(nodes: seq<Node>, a: nat, k: nat, pid: int, context: nat) returns (above: seq<nat>)
    requires a <= k <= |nodes| && Machine([], CallWord(nodes, a, k, pid, context)) != None
    ensures OpenAt(nodes, k, pid, context) == OpenAt(nodes, a, pid, context) + above
    ensures Machine([], CallWord(nodes, a, k, pid, context)) == Some(Names(nodes, above))
    ensures forall v :: v in above ==> a <= v < k
    decreases k
  {
    hide StackAfter, Names, BracketOf, Read;
    above := [];
    if a < k {
      WordNext(nodes, a, k - 1, pid, context);
      var before := Relative(nodes, a, k - 1, pid, context);
      StackFollowsMachine(nodes, OpenAt(nodes, a, pid, context), before, k - 1, pid, context);
      above := StackAfter(nodes, before, k - 1, pid, context);
    }
  }

  /** Reading from the start gives the names of the open calls. */
  lemma {:induction false} OpenCallsRead(nodes: seq<Node>, k: nat, pid: int, context: nat)
    requires k <= |nodes| && WellNested(nodes)
    ensures Machine([], CallWord(nodes, 0, k, pid, context)) == Some(Names(nodes, OpenAt(nodes, k, pid, context)))
    ensures forall v :: v in OpenAt(nodes, k, pid, context) ==> v < k
  {
    ReadablePrefix(nodes, k, |nodes|, pid, context);
    var above := Relative(nodes, 0, k, pid, context);
    assert above == OpenAt(nodes, k, pid, context);
  }

  /** So every exit finds its call on top. */
  lemma {:induction false} ExitMeetsTop(nodes: seq<Node>, j: nat)
    requires j < |nodes| && WellNested(nodes) && IsExit(nodes[j])
    ensures TopIsNamed(nodes, OpenAt(nodes, j, nodes[j].pid, nodes[j].context), nodes[j].callName)
  {
    var pid, context := nodes[j].pid, nodes[j].context;
    var stack := OpenAt(nodes, j, pid, context);
    OpenCallsRead(nodes, j, pid, context);
    ReadablePrefix(nodes, j + 1, |nodes|, pid, context);
    WordNext(nodes, 0, j, pid, context);
    assert Read(Names(nodes, stack), Bracket.Close(nodes[j].callName)) != None;
    NamesPop(nodes, stack);
    assert stack[|stack| - 1] in stack;
  }

  ghost predicate OpenOrder(nodes: seq<Node>, s: seq<nat>, k: nat, pid: int, context: nat) {
    && (forall a, b :: 0 <= a < b < |s| ==> s[a] < s[b])
    && (forall a :: 0 <= a < |s| ==>
        s[a] < k && s[a] < |nodes| && IsEnter(nodes[s[a]]) && InContext(nodes[s[a]], pid, context))
  }

  lemma {:induction false} PushKeepsOrder(nodes: seq<Node>, s: seq<nat>, k: nat, pid: int, context: nat)
    requires k < |nodes| && OpenOrder(nodes, s, k, pid, context)
    requires IsEnter(nodes[k]) && InContext(nodes[k], pid, context)
    ensures OpenOrder(nodes, s + [k], k + 1, pid, context)
  {
    hide IsEnter, InContext;
  }

  lemma {:induction false} PrefixKeepsOrder(nodes: seq<Node>, s: seq<nat>, t: seq<nat>, k: nat, pid: int, context: nat)
    requires t <= s && OpenOrder(nodes, s, k, pid, context)
    ensures OpenOrder(nodes, t, k + 1, pid, context)
  {
    hide IsEnter, InContext;
    assert forall a :: 0 <= a < |t| ==> t[a] == s[a];
  }

  lemma {:induction false} OrderNext(nodes: seq<Node>, s: seq<nat>, k: nat, pid: int, context: nat)
    requires k < |nodes| && OpenOrder(nodes, s, k, pid, context)
    ensures OpenOrder(nodes, StackAfter(nodes, s, k, pid, context), k + 1, pid, context)
  {
    hide OpenOrder;
    if InContext(nodes[k], pid, context) && nodes[k].callKind == Enter {
      PushKeepsOrder(nodes, s, k, pid, context);
    } else {
      PrefixKeepsOrder(nodes, s, StackAfter(nodes, s, k, pid, context), k, pid, context);
    }
  }

  lemma {:induction false} OpenOrdered(nodes: seq<Node>, k: nat, pid: int, context: nat)
    requires k <= |nodes|
    ensures OpenOrder(nodes, OpenAt(nodes, k, pid, context), k, pid, context)
  {
    hide OpenOrder, StackAfter;
    if k == 0 {
      NothingOpenYet(nodes, pid, context);
    } else {
      OpenOrdered(nodes, k - 1, pid, context);
      OrderNext(nodes, OpenAt(nodes, k - 1, pid, context), k - 1, pid, context);
    }
  }

  lemma {:induction false} NothingOpenYet(nodes: seq<Node>, pid: int, context: nat)
    ensures OpenOrder(nodes, OpenAt(nodes, 0, pid, context), 0, pid, context)
  {}

  // ---------- The search finds the innermost open call ----------

  ghost predicate UnmatchedIffOpen(nodes: seq<Node>, matched: seq<nat>, k: nat, v: nat)
    requires v < k <= |nodes| == |matched|
  {
    matched[v] == SIZE_MAX <==> v in OpenAt(nodes, k, nodes[v].pid, nodes[v].context)
  }

  ghost predicate UnmatchedFrom(matched: seq<nat>, k: nat) {
    forall v :: k <= v < |matched| ==> matched[v] == SIZE_MAX
  }

  /** The unmatched entries of a context are its open calls. */
  ghost predicate UnmatchedAreOpen(nodes: seq<Node>, matched: seq<nat>, k: nat)
    requires k <= |nodes| == |matched|
  {
    && UnmatchedFrom(matched, k)
    && (forall v: nat :: v < k && IsEnter(nodes[v]) ==> UnmatchedIffOpen(nodes, matched, k, v))
  }

  lemma {:induction false} ActiveEnterIsLast(nodes: seq<Node>, matched: seq<nat>, k: nat, n: Node, requireName: bool,
                                             top: nat)
    requires top < k <= |nodes| == |matched| && Candidate(nodes, matched, top, n, requireName)
    requires forall c :: top < c < k ==> !Candidate(nodes, matched, c, n, requireName)
    ensures ActiveEnter(nodes, matched, k, n, requireName) == top
  {
    if top < k - 1 {
      ActiveEnterIsLast(nodes, matched, k - 1, n, requireName, top);
    }
  }

  lemma {:induction false} NoActiveEnter(nodes: seq<Node>, matched: seq<nat>, k: nat, n: Node, requireName: bool)
    requires k <= |nodes| == |matched| && forall c :: 0 <= c < k ==> !Candidate(nodes, matched, c, n, requireName)
    ensures ActiveEnter(nodes, matched, k, n, requireName) == SIZE_MAX
  {
    if k > 0 {
      NoActiveEnter(nodes, matched, k - 1, n, requireName);
    }
  }

  /** For a call that finds its name on top, or needs none. */
  lemma {:induction false} ActiveEnterIsTop(nodes: seq<Node>, matched: seq<nat>, k: nat, requireName: bool)
    requires k < |nodes| == |matched| && UnmatchedAreOpen(nodes, matched, k)
    requires requireName ==> TopIsNamed(nodes, OpenAt(nodes, k, nodes[k].pid, nodes[k].context), nodes[k].callName)
    ensures var stack := OpenAt(nodes, k, nodes[k].pid, nodes[k].context);
            ActiveEnter(nodes, matched, k, nodes[k], requireName)
              == if stack == [] then SIZE_MAX else stack[|stack| - 1]
  {
    var n := nodes[k];
    var stack := OpenAt(nodes, k, n.pid, n.context);
    OpenOrdered(nodes, k, n.pid, n.context);
    assert forall c: nat :: c < k && Candidate(nodes, matched, c, n, requireName) ==> c in stack;
    if stack == [] {
      NoActiveEnter(nodes, matched, k, n, requireName);
    } else {
      var top := stack[|stack| - 1];
      assert top in stack;
      assert forall c :: c in stack ==> c <= top;
      ActiveEnterIsLast(nodes, matched, k, n, requireName, top);
    }
  }

  lemma {:induction false} PopOne(nodes: seq<Node>, stack: seq<nat>, k: nat, pid: int, context: nat, v: nat)
    requires stack != [] && OpenOrder(nodes, stack, k, pid, context)
    ensures v in stack[..|stack| - 1] <==> v in stack && v != stack[|stack| - 1]
  {
    if v in stack && v != stack[|stack| - 1] {
      var a :| 0 <= a < |stack| && stack[a] == v;
      assert stack[..|stack| - 1][a] == v;
    }
  }

  /** The match that node k adds. */
  ghost predicate MatchesTop(nodes: seq<Node>, matched: seq<nat>, after: seq<nat>, k: nat)
    requires k < |nodes| == |matched|
  {
    var stack := OpenAt(nodes, k, nodes[k].pid, nodes[k].context);
    if IsExit(nodes[k]) then
      TopIsNamed(nodes, stack, nodes[k].callName) && after == matched[stack[|stack| - 1] := k]
    else after == matched
  }

  lemma {:induction false} MatchedNext(nodes: seq<Node>, k: nat)
    requires k < |nodes| < SIZE_MAX && WellNested(nodes) && UnmatchedAreOpen(nodes, Pass(nodes, k).matched, k)
    ensures MatchesTop(nodes, Pass(nodes, k).matched, Pass(nodes, k + 1).matched, k)
    ensures UnmatchedFrom(Pass(nodes, k + 1).matched, k + 1)
  {
    if IsExit(nodes[k]) {
      ExitMeetsTop(nodes, k);
      ActiveEnterIsTop(nodes, Pass(nodes, k).matched, k, true);
    }
  }

  lemma {:induction false} UnmatchedStep(nodes: seq<Node>, matched: seq<nat>, after: seq<nat>, k: nat, v: nat)
    requires v <= k < |nodes| == |matched| == |after| && |nodes| < SIZE_MAX && IsEnter(nodes[v])
    requires v < k ==> UnmatchedIffOpen(nodes, matched, k, v)
    requires matched[k] == SIZE_MAX && MatchesTop(nodes, matched, after, k)
    ensures UnmatchedIffOpen(nodes, after, k + 1, v)
  {
    var stack := OpenAt(nodes, k, nodes[v].pid, nodes[v].context);
    OpenOrdered(nodes, k, nodes[v].pid, nodes[v].context);
    OpenOrdered(nodes, k, nodes[k].pid, nodes[k].context);
    if IsExit(nodes[k]) && SameContext(nodes[k], nodes[v]) {
      PopOne(nodes, stack, k, nodes[v].pid, nodes[v].context, v);
    }
  }

  lemma {:induction false} UnmatchedStayOpen(nodes: seq<Node>, k: nat)
    requires k <= |nodes| < SIZE_MAX && WellNested(nodes)
    ensures UnmatchedAreOpen(nodes, Pass(nodes, k).matched, k)
  {
    if k > 0 {
      UnmatchedStayOpen(nodes, k - 1);
      MatchedNext(nodes, k - 1);
      var before, after := Pass(nodes, k - 1).matched, Pass(nodes, k).matched;
      forall v: nat | v < k && IsEnter(nodes[v])
        ensures UnmatchedIffOpen(nodes, after, k, v)
      {
        UnmatchedStep(nodes, before, after, k - 1, v);
      }
    }
  }

  // ---------- Open calls seen from one of them ----------

  /** A node that leaves call i open is read without what is below i. */
  lemma {:induction false} StepAboveOpenCall(nodes: seq<Node>, below: seq<nat>, i: nat, above: seq<nat>, k: nat,
                                             pid: int, context: nat)
    requires k < |nodes| && i !in below && i in StackAfter(nodes, below + [i] + above, k, pid, context)
    requires IsExit(nodes[k]) && InContext(nodes[k], pid, context) ==>
             TopIsNamed(nodes, below + [i] + above, nodes[k].callName)
    ensures ReadNode(nodes[k], pid, context, Some(Names(nodes, above))) != None
  {
    var stack := below + [i] + above;
    assert stack[..|below|] == below;
    if above != [] {
      assert stack[|stack| - 1] == above[|above| - 1];
      NamesPop(nodes, above);
    }
  }

  lemma {:induction false} OpenBefore(nodes: seq<Node>, i: nat, k: nat, pid: int, context: nat)
    requires i < k < |nodes| && i in OpenAt(nodes, k + 1, pid, context)
    ensures i in OpenAt(nodes, k, pid, context)
  {}

  lemma {:induction false} OpenFrom(nodes: seq<Node>, i: nat)
    requires i < |nodes| && IsEnter(nodes[i])
    ensures OpenAt(nodes, i + 1, nodes[i].pid, nodes[i].context)
            == OpenAt(nodes, i, nodes[i].pid, nodes[i].context) + [i]
    ensures i !in OpenAt(nodes, i, nodes[i].pid, nodes[i].context)
  {
    OpenOrdered(nodes, i, nodes[i].pid, nodes[i].context);
  }

  /** While a call is open, what came after it is readable from empty. */
  lemma {:induction false} ReadableWhileOpen(nodes: seq<Node>, i: nat, k: nat)
    requires i < k <= |nodes| && WellNested(nodes) && IsEnter(nodes[i])
    requires i in OpenAt(nodes, k, nodes[i].pid, nodes[i].context)
    ensures Machine([], CallWord(nodes, i + 1, k, nodes[i].pid, nodes[i].context)) != None
    decreases k
  {
    if i + 1 < k {
      var pid, context := nodes[i].pid, nodes[i].context;
      var below := OpenAt(nodes, i, pid, context);
      OpenBefore(nodes, i, k - 1, pid, context);
      ReadableWhileOpen(nodes, i, k - 1);
      var above := Relative(nodes, i + 1, k - 1, pid, context);
      WordNext(nodes, i + 1, k - 1, pid, context);
      OpenFrom(nodes, i);
      if IsExit(nodes[k - 1]) {
        ExitMeetsTop(nodes, k - 1);
      }
      StepAboveOpenCall(nodes, below, i, above, k - 1, pid, context);
    }
  }

  /** A call is the innermost open one exactly when all after it has ended. */
  lemma {:induction false} TopIffBalanced(nodes: seq<Node>, i: nat, j: nat)
    requires i < j <= |nodes| && WellNested(nodes) && IsEnter(nodes[i])
    ensures IsTop(OpenAt(nodes, j, nodes[i].pid, nodes[i].context), i)
            <==> Balanced(CallWord(nodes, i + 1, j, nodes[i].pid, nodes[i].context))
  {
    var pid, context := nodes[i].pid, nodes[i].context;
    var word := CallWord(nodes, i + 1, j, pid, context);
    var stack := OpenAt(nodes, j, pid, context);
    MachineDecidesBalance(word);
    OpenFrom(nodes, i);
    if IsTop(stack, i) {
      ReadableWhileOpen(nodes, i, j);
    }
    if Machine([], word) != None {
      var above := Relative(nodes, i + 1, j, pid, context);
      if above != [] {
        assert stack[|stack| - 1] == above[|above| - 1] && above[|above| - 1] in above;
      }
    }
  }

  /** The edges of the pass join each call to the innermost one open before it. */
  ghost predicate EdgeExact(nodes: seq<Node>, edges: seq<ModelEdge>, i: nat, j: nat)
    requires j < |nodes|
  {
    var top := IsTop(OpenAt(nodes, j, nodes[j].pid, nodes[j].context), i);
    && (ModelEdge(CallReturn, i, j) in edges <==> IsExit(nodes[j]) && top)
    && (ModelEdge(CallParent, i, j) in edges <==> IsEnter(nodes[j]) && top)
  }

  /** The edges added at node k. */
  lemma {:induction false} NewEdges(nodes: seq<Node>, k: nat)
    requires k < |nodes| < SIZE_MAX && WellNested(nodes)
    ensures var stack := OpenAt(nodes, k, nodes[k].pid, nodes[k].context);
            Pass(nodes, k + 1).edges
            == Pass(nodes, k).edges
               + if nodes[k].kind != CallRecord || stack == [] then []
                 else [ModelEdge(if nodes[k].callKind == Exit then CallReturn else CallParent, stack[|stack| - 1], k)]
  {
    UnmatchedStayOpen(nodes, k);
    OpenOrdered(nodes, k, nodes[k].pid, nodes[k].context);
    if IsExit(nodes[k]) {
      ExitMeetsTop(nodes, k);
      ActiveEnterIsTop(nodes, Pass(nodes, k).matched, k, true);
    } else if IsEnter(nodes[k]) {
      ActiveEnterIsTop(nodes, Pass(nodes, k).matched, k, false);
    }
  }

  lemma {:induction false} EdgesJoinTops(nodes: seq<Node>, k: nat, i: nat, j: nat)
    requires j < k <= |nodes| < SIZE_MAX && WellNested(nodes)
    ensures EdgeExact(nodes, Pass(nodes, k).edges, i, j)
    decreases k
  {
    NewEdges(nodes, k - 1);
    if j < k - 1 {
      EdgesJoinTops(nodes, k - 1, i, j);
    } else {
      EdgesAreMatchingAndForest(nodes, k - 1);
    }
  }

  /** On well-nested calls the return edges are the bracket matching and the
      parent edges lead from the immediately enclosing calls. */
  lemma {:induction false} CallEdgesExact(nodes: seq<Node>, i: nat, j: nat)
    requires |nodes| < SIZE_MAX && WellNested(nodes)
    ensures ModelEdge(CallReturn, i, j) in Pass(nodes, |nodes|).edges <==> BracketsMatch(nodes, i, j)
    ensures ModelEdge(CallParent, i, j) in Pass(nodes, |nodes|).edges <==> ImmediatelyEncloses(nodes, i, j)
  {
    EdgesAreMatchingAndForest(nodes, |nodes|);
    if j < |nodes| {
      EdgesJoinTops(nodes, |nodes|, i, j);
      OpenOrdered(nodes, j, nodes[j].pid, nodes[j].context);
      if i < j && IsEnter(nodes[i]) && SameContext(nodes[i], nodes[j]) {
        TopIffBalanced(nodes, i, j);
        if IsExit(nodes[j]) {
          ExitMeetsTop(nodes, j);
        }
      }
    }
  }
}
