/** sync_reaches: depth-first reachability over a list of edges, with work
    arrays of one slot more than there are edges. */
module SyncReach {
  import opened FiniteSets
  import opened Graphs

  datatype SyncEdge<T> = SyncEdge(from: T, to: T)

  ghost function EdgeSet<T>(edges: seq<SyncEdge<T>>): set<(T, T)> {
    set e | e in edges :: (e.from, e.to)
  }

  lemma {:induction false} EdgeSetAppend<T>(edges: seq<SyncEdge<T>>, e: SyncEdge<T>)
    ensures EdgeSet(edges + [e]) == EdgeSet(edges) + {(e.from, e.to)}
  {
    assert forall x :: x in edges + [e] <==> x in edges || x == e;
  }

  lemma {:induction false} EdgeStored<T>(edges: seq<SyncEdge<T>>, index: nat)
    requires index < |edges|
    ensures (edges[index].from, edges[index].to) in EdgeSet(edges)
  {
    assert edges[index] in edges;
  }

  method Contains<T(==)>(items: array<T>, count: nat, x: T) returns (b: bool)
    requires count <= items.Length
    ensures b <==> x in items[..count]
  {
    var index := 0;
    while index < count
      invariant index <= count && x !in items[..index]
    {
      if items[index] == x {
        return true;
      }
      index := index + 1;
    }
    return false;
  }

  /** The targets of the first `index` edges out of `current`. */
  ghost predicate Targets<T(!new)>(edges: seq<SyncEdge<T>>, current: T, target: T, index: nat, added: seq<T>)
    requires index <= |edges|
  {
    && (forall x :: x in added ==> x != target && (current, x) in EdgeSet(edges))
    && (forall k :: 0 <= k < index && edges[k].from == current ==> edges[k].to in added)
  }

  lemma {:induction false} NoTargetsYet<T(!new)>(edges: seq<SyncEdge<T>>, current: T, target: T)
    ensures Targets(edges, current, target, 0, [])
  {}

  lemma {:induction false} TargetsNext<T(!new)>(edges: seq<SyncEdge<T>>, current: T, target: T, index: nat,
                                                added: seq<T>)
    requires index < |edges| && Targets(edges, current, target, index, added)
    requires edges[index].from == current ==> edges[index].to != target
    ensures Targets(edges, current, target, index + 1,
                    if edges[index].from == current then added + [edges[index].to] else added)
  {
    assert edges[index] in edges;
  }

  /** The edges pushed so far, each at most once. */
  ghost predicate Pushed<T(!new)>(edges: seq<SyncEdge<T>>, current: T, before: set<nat>, after: set<nat>, index: nat) {
    before <= after <= Below(|edges|)
      && forall k :: k in after && k !in before ==> k < index <= |edges| && edges[k].from == current
  }

  lemma {:induction false} PushNext<T(!new)>(edges: seq<SyncEdge<T>>, current: T, before: set<nat>, after: set<nat>,
                                             index: nat)
    requires index < |edges| && edges[index].from == current && Pushed(edges, current, before, after, index)
    requires forall k :: k in before ==> k < |edges| && edges[k].from != current
    ensures Pushed(edges, current, before, after + {index}, index + 1) && |after + {index}| == |after| + 1 <= |edges|
  {
    assert index !in after;
    SubsetSize(after + {index}, Below(|edges|));
  }

  /** Pushes the targets of `current`'s edges unless one of them is the target.
      The guard on the work array never drops a node: `pushed` holds the edges
      pushed so far, each at most once. */
  method ExpandNode<T(==, !new)>(edges: seq<SyncEdge<T>>, current: T, target: T, pending: array<T>, count: nat,
                                 ghost pushed: set<nat>)
    returns (found: bool, newCount: nat, ghost newPushed: set<nat>, ghost added: seq<T>)
    requires pending.Length == |edges| + 1
    requires pushed <= Below(|edges|) && count <= |pushed|
    requires forall k :: k in pushed ==> k < |edges| && edges[k].from != current
    modifies pending
    ensures Pushed(edges, current, pushed, newPushed, |edges|) && |newPushed| == |pushed| + |added| <= |edges|
    ensures newCount == count + |added| <= pending.Length && pending[..newCount] == old(pending[..count]) + added
    ensures found ==> (current, target) in EdgeSet(edges)
    ensures !found ==> Targets(edges, current, target, |edges|, added)
  {
    hide Targets, EdgeSet, Below;
    SubsetSize(pushed, Below(|edges|));
    NoTargetsYet(edges, current, target);
    found, newCount, newPushed, added := false, count, pushed, [];
    var index := 0;
    while index < |edges|
      invariant index <= |edges| && !found
      invariant Pushed(edges, current, pushed, newPushed, index) && |newPushed| == |pushed| + |added| <= |edges|
      invariant newCount == count + |added| <= |edges| && pending[..newCount] == old(pending[..count]) + added
      invariant Targets(edges, current, target, index, added)
    {
      if edges[index].from == current && edges[index].to == target {
        EdgeStored(edges, index);
        found := true;
        return;
      }
      TargetsNext(edges, current, target, index, added);
      if edges[index].from == current {
        PushNext(edges, current, pushed, newPushed, index);
        if newCount < |edges| + 1 {
          ghost var before := pending[..newCount];
          pending[newCount] := edges[index].to;
          newCount := newCount + 1;
          newPushed := newPushed + {index};
          added := added + [edges[index].to];
          assert pending[..newCount] == before + [edges[index].to];
        }
      }
      index := index + 1;
    }
  }

  /** Exact reachability: true if and only if start is the target or a directed
      path leads there. */
  method SyncReaches<T(==, !new)>(edges: seq<SyncEdge<T>>, start: T, target: T) returns (found: bool)
    ensures found <==> Reaches(EdgeSet(edges), start, target)
  {
    hide Reaches, EdgeSet, Searching;
    ReachesSelf(EdgeSet(edges), start);
    found := start == target;
    if found {
      return;
    }
    var pending := new T[|edges| + 1](_ => start);
    var visited := new T[|edges| + 1](_ => start);
    var pendingCount: nat, visitedCount: nat := 1, 0;
    assert pending[..1] == [start];
    SearchBegins(edges, start, target);
    ghost var pushed: set<nat>, popped: nat := {}, 0;
    while pendingCount > 0 && !found
      invariant pendingCount <= pending.Length && visitedCount <= popped
                && pendingCount + popped == 1 + |pushed| <= 1 + |edges|
      invariant PushedFrom(edges, pushed, visited[..visitedCount])
      invariant found ==> Reaches(EdgeSet(edges), start, target)
      invariant !found ==> Searching(edges, start, target, visited[..visitedCount], pending[..pendingCount])
      decreases |edges| + 1 - popped, if found then 0 else 1
    {
      pendingCount := pendingCount - 1;
      var current := pending[pendingCount];
      popped := popped + 1;
      ghost var rest, done := pending[..pendingCount], visited[..visitedCount];
      assert pending[..pendingCount + 1] == rest + [current];
      var alreadyVisited := Contains(visited, visitedCount, current);
      if alreadyVisited {
        SkipVisited(edges, start, target, done, rest, current);
      } else {
        visited[visitedCount] := current;
        visitedCount := visitedCount + 1;
        assert visited[..visitedCount] == done + [current];
        ghost var added, before := [], pushed;
        found, pendingCount, pushed, added := ExpandNode(edges, current, target, pending, pendingCount, pushed);
        PushedFromNext(edges, before, pushed, done, current);
        if found {
          StepToTarget(edges, start, target, done, rest, current);
        } else {
          VisitNode(edges, start, target, done, rest, current, added);
        }
      }
    }
    if !found {
      SearchExhausted(edges, start, target, visited[..visitedCount]);
    }
  }

  // ---------- The state of the search ----------

  /** The pushed edges leave visited nodes. */
  ghost predicate PushedFrom<T(!new)>(edges: seq<SyncEdge<T>>, pushed: set<nat>, visited: seq<T>) {
    pushed <= Below(|edges|) && forall k :: k in pushed ==> k < |edges| && edges[k].from in visited
  }

  lemma {:induction false} PushedFromNext<T(!new)>(edges: seq<SyncEdge<T>>, before: set<nat>, after: set<nat>,
                                                   visited: seq<T>, current: T)
    requires PushedFrom(edges, before, visited) && Pushed(edges, current, before, after, |edges|)
    ensures PushedFrom(edges, after, visited + [current])
  {}

  ghost predicate SeenReachable<T(!new)>(edges: seq<SyncEdge<T>>, start: T, target: T, seen: seq<T>) {
    start in seen && forall x :: x in seen ==> x != target && Reaches(EdgeSet(edges), start, x)
  }

  ghost predicate Covered<T(!new)>(edges: seq<SyncEdge<T>>, visited: seq<T>, seen: seq<T>) {
    forall k :: 0 <= k < |edges| && edges[k].from in visited ==> edges[k].to in seen
  }

  /** Everything seen is reachable, the target is not seen, and every edge out
      of a visited node leads to a node that is visited or pending. */
  ghost predicate Searching<T(!new)>(edges: seq<SyncEdge<T>>, start: T, target: T, visited: seq<T>, pending: seq<T>) {
    SeenReachable(edges, start, target, visited + pending) && Covered(edges, visited, visited + pending)
  }

  lemma {:induction false} SearchBegins<T(!new)>(edges: seq<SyncEdge<T>>, start: T, target: T)
    requires start != target
    ensures Searching(edges, start, target, [], [start])
  {
    ReachesSelf(EdgeSet(edges), start);
  }

  lemma {:induction false} SkipVisited<T(!new)>(edges: seq<SyncEdge<T>>, start: T, target: T, visited: seq<T>,
                                                rest: seq<T>, current: T)
    requires Searching(edges, start, target, visited, rest + [current]) && current in visited
    ensures Searching(edges, start, target, visited, rest)
  {
    assert forall x :: x in visited + (rest + [current]) <==> x in visited + rest;
  }

  lemma {:induction false} StepToTarget<T(!new)>(edges: seq<SyncEdge<T>>, start: T, target: T, visited: seq<T>,
                                                 rest: seq<T>, current: T)
    requires Searching(edges, start, target, visited, rest + [current]) && (current, target) in EdgeSet(edges)
    ensures Reaches(EdgeSet(edges), start, target)
  {
    var g := EdgeSet(edges);
    assert current in visited + (rest + [current]);
    ReachesSelf(g, target);
    ReachesStep(g, current, target, target);
    ReachesTrans(g, start, current, target);
  }

  lemma {:induction false} VisitNode<T(!new)>(edges: seq<SyncEdge<T>>, start: T, target: T, visited: seq<T>,
                                              rest: seq<T>, current: T, added: seq<T>)
    requires Searching(edges, start, target, visited, rest + [current])
             && Targets(edges, current, target, |edges|, added)
    ensures Searching(edges, start, target, visited + [current], rest + added)
  {
    var g := EdgeSet(edges);
    var seen, more := visited + (rest + [current]), visited + [current] + (rest + added);
    assert current in seen;
    assert forall x :: x in more <==> x in seen || x in added;
    forall x | x in added
      ensures x != target && Reaches(g, start, x)
    {
      ReachesSelf(g, x);
      ReachesStep(g, current, x, x);
      ReachesTrans(g, start, current, x);
    }
    assert forall x :: x in visited + [current] <==> x in visited || x == current;
  }

  lemma {:induction false} SearchExhausted<T(!new)>(edges: seq<SyncEdge<T>>, start: T, target: T, visited: seq<T>)
    requires Searching(edges, start, target, visited, [])
    ensures !Reaches(EdgeSet(edges), start, target)
  {
    assert visited + [] == visited;
    var s := set x | x in visited;
    if Reaches(EdgeSet(edges), start, target) {
      ClosedSetHoldsReachable(EdgeSet(edges), s, start, target);
    }
  }
}
