/** Adjacency lists threaded through one arc array: heads[u] names u's newest
    arc and each arc names the previous arc of the same source. The ghost
    sequence `src` records the source of every stored arc. */
module ArcLists {
  import opened Events

  datatype GraphArc = GraphArc(to: nat, next: nat)

  /** The newest arc below k that leaves u, or SIZE_MAX. */
  function LastFrom(src: seq<nat>, k: nat, u: nat): (r: nat)
    requires k <= |src| && |src| <= SIZE_MAX
    ensures r == SIZE_MAX || (r < k && src[r] == u)
  {
    if k == 0 then SIZE_MAX else if src[k - 1] == u then k - 1 else LastFrom(src, k - 1, u)
  }

  lemma {:induction false} LastFromIsLatest(src: seq<nat>, k: nat, u: nat, j: nat)
    requires j < k <= |src| <= SIZE_MAX && src[j] == u
    ensures j <= LastFrom(src, k, u) < k
  {
    if src[k - 1] != u {
      LastFromIsLatest(src, k - 1, u, j);
    }
  }

  lemma {:induction false} LastFromPrefix(src: seq<nat>, t: seq<nat>, k: nat, u: nat)
    requires k <= |src| <= |t| <= SIZE_MAX && forall j :: 0 <= j < k ==> src[j] == t[j]
    ensures LastFrom(src, k, u) == LastFrom(t, k, u)
  {
    if k > 0 {
      LastFromPrefix(src, t, k - 1, u);
    }
  }

  /** Arc k joins two nodes below n and continues its source's list. */
  ghost predicate ArcOk(src: seq<nat>, arcs: seq<GraphArc>, n: nat, k: nat) {
    k < |src| <= |arcs| && |src| <= SIZE_MAX
    && src[k] < n && arcs[k].to < n && src[k] != arcs[k].to && arcs[k].next == LastFrom(src, k, src[k])
  }

  /** Every list holds exactly its source's arcs, newest first, without
      self-arcs or repeated targets. */
  ghost predicate Linked(src: seq<nat>, arcs: seq<GraphArc>, heads: seq<nat>) {
    |src| <= |arcs| && |src| <= SIZE_MAX
    && (forall k :: 0 <= k < |src| ==> ArcOk(src, arcs, |heads|, k))
    && (forall u :: 0 <= u < |heads| ==> heads[u] == LastFrom(src, |src|, u))
    && (forall j, k :: 0 <= j < k < |src| && src[j] == src[k] ==> arcs[j].to != arcs[k].to)
  }

  ghost function ArcPairs(src: seq<nat>, arcs: seq<GraphArc>): set<(nat, nat)>
    requires |src| <= |arcs|
  {
    set k | 0 <= k < |src| :: (src[k], arcs[k].to)
  }

  /** The stored arcs into v that have not been removed. */
  ghost function Into(arcs: seq<GraphArc>, count: nat, removed: set<nat>, v: nat): set<nat>
    requires count <= |arcs|
  {
    set k: nat | k < count && k !in removed && arcs[k].to == v
  }

  ghost predicate CountsInto(arcs: seq<GraphArc>, count: nat, removed: set<nat>, indegree: seq<nat>)
    requires count <= |arcs|
  {
    forall v :: 0 <= v < |indegree| ==> indegree[v] == |Into(arcs, count, removed, v)|
  }

  /** Lists and counts agree on the stored arcs. */
  ghost predicate Stored(src: seq<nat>, arcs: seq<GraphArc>, heads: seq<nat>, indegree: seq<nat>) {
    Linked(src, arcs, heads) && CountsInto(arcs, |src|, {}, indegree)
  }

  lemma {:induction false} AppendKeepsLinked(src: seq<nat>, arcs: seq<GraphArc>, heads: seq<nat>, from: nat,
                                             arc: GraphArc)
    requires Linked(src, arcs, heads) && |src| < |arcs| && |src| < SIZE_MAX
    requires from < |heads| && arc.to < |heads| && from != arc.to && arc.next == heads[from]
    requires forall k :: 0 <= k < |src| && src[k] == from ==> arcs[k].to != arc.to
    ensures Linked(src + [from], arcs[|src| := arc], heads[from := |src|])
  {
    var src': seq<nat>, arcs', heads': seq<nat> := src + [from], arcs[|src| := arc], heads[from := |src|];
    forall k: nat | k < |src'|
      ensures ArcOk(src', arcs', |heads'|, k)
    {
      assert k < |src| ==> ArcOk(src, arcs, |heads|, k);
      LastFromPrefix(src, src', k, src'[k]);
    }
    forall u | 0 <= u < |heads'|
      ensures heads'[u] == LastFrom(src', |src'|, u)
    {
      LastFromPrefix(src, src', |src|, u);
    }
  }

  lemma {:induction false} AppendAddsPair(src: seq<nat>, arcs: seq<GraphArc>, from: nat, arc: GraphArc)
    requires |src| < |arcs|
    ensures ArcPairs(src + [from], arcs[|src| := arc]) == ArcPairs(src, arcs) + {(from, arc.to)}
  {
    var src': seq<nat>, arcs' := src + [from], arcs[|src| := arc];
    var p, p' := ArcPairs(src, arcs), ArcPairs(src', arcs');
    forall x | x in p
      ensures x in p'
    {
      var k :| 0 <= k < |src| && x == (src[k], arcs[k].to);
      assert x == (src'[k], arcs'[k].to);
    }
    assert (src'[|src|], arcs'[|src|].to) in p';
    forall x | x in p'
      ensures x in p + {(from, arc.to)}
    {
      var k :| 0 <= k < |src'| && x == (src'[k], arcs'[k].to);
      if k < |src| {
        assert x == (src[k], arcs[k].to);
      }
    }
  }

  lemma {:induction false} AppendCounts(arcs: seq<GraphArc>, count: nat, indegree: seq<nat>, arc: GraphArc)
    requires count < |arcs| && arc.to < |indegree| && CountsInto(arcs, count, {}, indegree)
    ensures CountsInto(arcs[count := arc], count + 1, {}, indegree[arc.to := indegree[arc.to] + 1])
  {
    var arcs' := arcs[count := arc];
    var indegree' := indegree[arc.to := indegree[arc.to] + 1];
    forall v | 0 <= v < |indegree'|
      ensures indegree'[v] == |Into(arcs', count + 1, {}, v)|
    {
      assert Into(arcs', count + 1, {}, v) == Into(arcs, count, {}, v) + (if v == arc.to then {count} else {});
    }
  }

  lemma {:induction false} RemoveCounts(arcs: seq<GraphArc>, count: nat, removed: set<nat>, indegree: seq<nat>, k: nat)
    requires k < count <= |arcs| && k !in removed && arcs[k].to < |indegree|
    requires CountsInto(arcs, count, removed, indegree)
    ensures indegree[arcs[k].to] > 0
    ensures CountsInto(arcs, count, removed + {k}, indegree[arcs[k].to := indegree[arcs[k].to] - 1])
  {
    assert k in Into(arcs, count, removed, arcs[k].to);
    forall v | 0 <= v < |indegree|
      ensures |Into(arcs, count, removed + {k}, v)| == if v == arcs[k].to then indegree[v] - 1 else indegree[v]
    {
      assert Into(arcs, count, removed + {k}, v)
             == Into(arcs, count, removed, v) - (if v == arcs[k].to then {k} else {});
    }
  }

  /** The writes of add_arc for a new arc. */
  method StoreArc(arcs: array<GraphArc>, arcCount: nat, heads: array<nat>, indegree: array<nat>,
                  from: nat, to: nat, ghost src: seq<nat>)
    returns (newCount: nat, ghost newSrc: seq<nat>)
    requires heads.Length == indegree.Length && heads != indegree
    requires |src| == arcCount < arcs.Length <= SIZE_MAX && from < heads.Length && to < heads.Length && from != to
    requires Stored(src, arcs[..], heads[..], indegree[..])
    requires forall k :: 0 <= k < arcCount && src[k] == from ==> arcs[k].to != to
    modifies arcs, heads, indegree
    ensures newCount == arcCount + 1 && newSrc == src + [from]
    ensures Stored(newSrc, arcs[..], heads[..], indegree[..])
    ensures ArcPairs(newSrc, arcs[..]) == ArcPairs(src, old(arcs[..])) + {(from, to)}
  {
    var arc := GraphArc(to, heads[from]);
    AppendKeepsLinked(src, arcs[..], heads[..], from, arc);
    AppendAddsPair(src, arcs[..], from, arc);
    AppendCounts(arcs[..], arcCount, indegree[..], arc);
    arcs[arcCount] := arc;
    heads[from] := arcCount;
    newCount := arcCount + 1;
    indegree[to] := indegree[to] + 1;
    newSrc := src + [from];
    assert arcs[..] == old(arcs[..])[arcCount := arc];
    assert heads[..] == old(heads[..])[from := arcCount];
    assert indegree[..] == old(indegree[..])[to := old(indegree[to]) + 1];
  }

  /** add_arc: refuses an arc out of range or a new arc at capacity; drops
      self-arcs and arcs already stored; otherwise stores the arc. */
  method AddArc(arcs: array<GraphArc>, arcCapacity: nat, arcCount: nat, heads: array<nat>, indegree: array<nat>,
                nodeCount: nat, from: nat, to: nat, ghost src: seq<nat>)
    returns (ok: bool, newCount: nat, ghost newSrc: seq<nat>)
    requires heads.Length == indegree.Length == nodeCount && heads != indegree
    requires arcCapacity == arcs.Length <= SIZE_MAX && |src| == arcCount <= arcCapacity
    requires Stored(src, arcs[..], heads[..], indegree[..])
    modifies arcs, heads, indegree
    ensures |newSrc| == newCount <= arcCapacity && newCount <= arcCount + 1
    ensures Stored(newSrc, arcs[..], heads[..], indegree[..])
    ensures ok <==> from < nodeCount && to < nodeCount
                    && (from == to || (from, to) in ArcPairs(src, old(arcs[..])) || arcCount < arcCapacity)
    ensures ArcPairs(newSrc, arcs[..]) == ArcPairs(src, old(arcs[..])) + (if ok && from != to then {(from, to)} else {})
  {
    newCount, newSrc := arcCount, src;
    if from >= nodeCount || to >= nodeCount || arcCount > arcCapacity {
      return false, newCount, newSrc;
    }
    var duplicate := from == to;
    var arc := heads[from];
    ghost var bound: nat := arcCount;
    while !duplicate && arc != SIZE_MAX
      invariant bound <= arcCount && (!duplicate ==> arc == LastFrom(src, bound, from))
      invariant duplicate ==> from == to || (from, to) in ArcPairs(src, arcs[..])
      invariant !duplicate ==> from != to && forall k :: bound <= k < arcCount && src[k] == from ==> arcs[k].to != to
      decreases !duplicate, bound
    {
      assert ArcOk(src, arcs[..], nodeCount, arc);
      duplicate := arcs[arc].to == to;
      forall k | arc <= k < bound && k != arc
        ensures src[k] != from
      {
        if src[k] == from {
          LastFromIsLatest(src, bound, from, k);
        }
      }
      assert (src[arc], arcs[..][arc].to) in ArcPairs(src, arcs[..]);
      bound := arc;
      arc := arcs[arc].next;
    }
    if !duplicate {
      forall k | 0 <= k < arcCount && src[k] == from
        ensures arcs[k].to != to
      {
        if k < bound {
          LastFromIsLatest(src, bound, from, k);
        }
      }
      if arcCount == arcCapacity {
        return false, newCount, newSrc;
      }
      newCount, newSrc := StoreArc(arcs, arcCount, heads, indegree, from, to, src);
    }
    ok := true;
  }
}
