/** Finite directed graphs as sets of edges: walks, reachability and cycles.
    Every analysis of the event log states its result in these terms. */
module Graphs {
  import opened FiniteSets

  ghost predicate IsWalk<T>(g: set<(T, T)>, p: seq<T>) {
    |p| >= 1 && forall i, j {:trigger p[i], p[j]} :: 0 <= i < |p| && j == i + 1 && j < |p| ==> (p[i], p[j]) in g
  }

  ghost predicate WalkBetween<T>(g: set<(T, T)>, p: seq<T>, u: T, v: T) {
    IsWalk(g, p) && p[0] == u && p[|p| - 1] == v
  }

  /** v is u, or a directed path leads from u to v. */
  ghost predicate Reaches<T(!new)>(g: set<(T, T)>, u: T, v: T) {
    exists p :: WalkBetween(g, p, u, v)
  }

  /** u lies on a directed cycle; a self-edge is a cycle of length one. */
  ghost predicate OnCycle<T(!new)>(g: set<(T, T)>, u: T) {
    exists p :: WalkBetween(g, p, u, u) && |p| >= 2
  }

  ghost predicate Cyclic<T(!new)>(g: set<(T, T)>) {
    exists u :: OnCycle(g, u)
  }

  lemma {:induction false} ReachesSelf<T(!new)>(g: set<(T, T)>, u: T)
    ensures Reaches(g, u, u)
  {
    assert WalkBetween(g, [u], u, u);
  }

  lemma {:induction false} WalkConcat<T(!new)>(g: set<(T, T)>, p: seq<T>, q: seq<T>)
    requires IsWalk(g, p) && IsWalk(g, q) && (p[|p| - 1], q[0]) in g
    ensures WalkBetween(g, p + q, p[0], q[|q| - 1])
  {
    var r := p + q;
    forall i, j | 0 <= i < |r| && j == i + 1 && j < |r|
      ensures (r[i], r[j]) in g
    {
      if j < |p| {
        assert (p[i], p[j]) in g;
      } else if i >= |p| {
        assert (q[i - |p|], q[j - |p|]) in g;
      }
    }
  }

  lemma {:induction false} SubWalk<T(!new)>(g: set<(T, T)>, p: seq<T>, a: nat, b: nat)
    requires IsWalk(g, p) && a < b <= |p|
    ensures WalkBetween(g, p[a..b], p[a], p[b - 1])
  {
    var q := p[a..b];
    forall i, j | 0 <= i < |q| && j == i + 1 && j < |q|
      ensures (q[i], q[j]) in g
    {
      assert (p[a + i], p[a + j]) in g;
    }
  }

  /** One edge in front of a path is a path. */
  lemma {:induction false} ReachesStep<T(!new)>(g: set<(T, T)>, u: T, v: T, w: T)
    requires (u, v) in g && Reaches(g, v, w)
    ensures Reaches(g, u, w)
    ensures u == w ==> OnCycle(g, u)
  {
    var p :| WalkBetween(g, p, v, w);
    WalkConcat(g, [u], p);
    assert WalkBetween(g, [u] + p, u, w);
  }

  lemma {:induction false} ReachesTrans<T(!new)>(g: set<(T, T)>, u: T, v: T, w: T)
    requires Reaches(g, u, v) && Reaches(g, v, w)
    ensures Reaches(g, u, w)
  {
    var p :| WalkBetween(g, p, u, v);
    var q :| WalkBetween(g, q, v, w);
    if |q| == 1 {
      assert v == w;
    } else {
      assert (q[0], q[1]) in g;
      SubWalk(g, q, 1, |q|);
      WalkConcat(g, p, q[1..|q|]);
      assert WalkBetween(g, p + q[1..|q|], u, w);
    }
  }

  lemma {:induction false} ReachesMonotone<T(!new)>(g: set<(T, T)>, h: set<(T, T)>, u: T, v: T)
    requires g <= h && Reaches(g, u, v)
    ensures Reaches(h, u, v)
  {
    var p :| WalkBetween(g, p, u, v);
    assert WalkBetween(h, p, u, v);
  }

  lemma {:induction false} CyclicMonotone<T(!new)>(g: set<(T, T)>, h: set<(T, T)>)
    requires g <= h && Cyclic(g)
    ensures Cyclic(h)
  {
    var u :| OnCycle(g, u);
    var p :| WalkBetween(g, p, u, u) && |p| >= 2;
    assert WalkBetween(h, p, u, u);
    assert OnCycle(h, u);
  }

  /** A node lies on a cycle exactly when one of its successors reaches it. */
  lemma {:induction false} OnCycleIffSuccessorReaches<T(!new)>(g: set<(T, T)>, u: T)
    ensures OnCycle(g, u) <==> exists v :: (u, v) in g && Reaches(g, v, u)
  {
    if OnCycle(g, u) {
      var p :| WalkBetween(g, p, u, u) && |p| >= 2;
      assert (p[0], p[1]) in g;
      SubWalk(g, p, 1, |p|);
      assert Reaches(g, p[1], u);
    }
    if v :| (u, v) in g && Reaches(g, v, u) {
      ReachesStep(g, u, v, u);
    }
  }

  /** A set closed under the edges holds everything its members reach. */
  lemma {:induction false} ClosedSetHoldsReachable<T(!new)>(g: set<(T, T)>, s: set<T>, u: T, v: T)
    requires u in s && Reaches(g, u, v)
    requires forall a, b :: a in s && (a, b) in g ==> b in s
    ensures v in s
  {
    var p :| WalkBetween(g, p, u, v);
    WalkStaysInside(g, s, p, |p| - 1);
  }

  lemma {:induction false} WalkStaysInside<T(!new)>(g: set<(T, T)>, s: set<T>, p: seq<T>, k: nat)
    requires IsWalk(g, p) && p[0] in s && k < |p|
    requires forall a, b :: a in s && (a, b) in g ==> b in s
    ensures p[k] in s
  {
    if k > 0 {
      WalkStaysInside(g, s, p, k - 1);
      assert (p[k - 1], p[k]) in g;
    }
  }

  /** A path that may use the edge (a, b) either avoids it, or its tail after
      the last use leads from b without it. */
  lemma {:induction false} ReachesWithoutEdge<T(!new)>(g: set<(T, T)>, a: T, b: T, p: seq<T>)
    requires IsWalk(g + {(a, b)}, p)
    ensures Reaches(g, p[0], p[|p| - 1]) || Reaches(g, b, p[|p| - 1])
    decreases |p|
  {
    var z := p[|p| - 1];
    if |p| == 1 {
      ReachesSelf(g, z);
    } else {
      assert (p[0], p[1]) in g + {(a, b)};
      SubWalk(g + {(a, b)}, p, 1, |p|);
      ReachesWithoutEdge(g, a, b, p[1..|p|]);
      if !Reaches(g, b, z) {
        if (p[0], p[1]) in g {
          ReachesStep(g, p[0], p[1], z);
        }
      }
    }
  }

  /** Adding an edge closes a cycle exactly when its head already reached its
      tail: the fact behind checking for cycles one edge at a time. */
  lemma {:induction false} CyclicAfterEdge<T(!new)>(g: set<(T, T)>, a: T, b: T)
    ensures Cyclic(g + {(a, b)}) <==> Cyclic(g) || Reaches(g, b, a)
  {
    var h := g + {(a, b)};
    if Cyclic(g) {
      CyclicMonotone(g, h);
    }
    if Reaches(g, b, a) {
      ReachesMonotone(g, h, b, a);
      ReachesStep(h, a, b, a);
    }
    if Cyclic(h) && !Cyclic(g) {
      var u :| OnCycle(h, u);
      var p :| WalkBetween(h, p, u, u) && |p| >= 2;
      if i :| 0 <= i < |p| - 1 && (p[i], p[i + 1]) !in g {
        assert (p[i], p[i + 1]) in h;
        // Rotate the closed walk so that it starts at b and ends at a.
        SubWalk(h, p, i + 1, |p|);
        SubWalk(h, p, 0, i + 1);
        assert WalkBetween(h, p[i + 1..|p|], b, u) && WalkBetween(h, p[0..i + 1], u, a);
        assert Reaches(h, b, u) && Reaches(h, u, a);
        ReachesTrans(h, b, u, a);
        var q :| WalkBetween(h, q, b, a);
        ReachesWithoutEdge(g, a, b, q);
      } else {
        forall i, j | 0 <= i < |p| && j == i + 1 && j < |p|
          ensures (p[i], p[j]) in g
        {}
        assert WalkBetween(g, p, u, u);
        assert OnCycle(g, u);
      }
    }
  }

  ghost predicate HasPredecessorIn<T>(g: set<(T, T)>, s: set<T>, v: T) {
    exists u :: u in s && (u, v) in g
  }

  /** A nonempty finite set in which everybody has a predecessor holds a cycle. */
  lemma {:induction false} AllHavePredecessors<T(!new)>(g: set<(T, T)>, s: set<T>)
    requires s != {}
    requires forall v :: v in s ==> HasPredecessorIn(g, s, v)
    ensures Cyclic(g)
  {
    var p := BackwardWalk(g, s, |s|);
    var i, j := Pigeonhole(p, s);
    SubWalk(g, p, i, j + 1);
    assert WalkBetween(g, p[i..j + 1], p[i], p[i]);
    assert OnCycle(g, p[i]);
  }

  lemma {:induction false} BackwardWalk<T(!new)>(g: set<(T, T)>, s: set<T>, n: nat) returns (p: seq<T>)
    requires s != {}
    requires forall v :: v in s ==> HasPredecessorIn(g, s, v)
    ensures IsWalk(g, p) && |p| == n + 1 && forall x :: x in p ==> x in s
    decreases n
  {
    if n == 0 {
      var v :| v in s;
      p := [v];
    } else {
      var q := BackwardWalk(g, s, n - 1);
      assert q[0] in q;
      assert HasPredecessorIn(g, s, q[0]);
      var u :| u in s && (u, q[0]) in g;
      WalkConcat(g, [u], q);
      p := [u] + q;
    }
  }
}
