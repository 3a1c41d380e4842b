/** Which schedules adjacent swaps reach, and which two nodes may change their
    order: the converse of what reachable schedules keep. */
module ScheduleReach {
  import opened Events
  import opened CausalSpec
  import opened FiniteSets
  import opened Graphs
  import opened Schedules
  import opened SyncSpec

  // ---------- Inversions ----------

  /** The entries before the last one that are larger than it. */
  function Larger(s: seq<nat>, x: nat): nat {
    if s == [] then 0 else Larger(s[..|s| - 1], x) + (if s[|s| - 1] > x then 1 else 0)
  }

  /** The number of pairs that stand in descending order. */
  function Inversions(s: seq<nat>): nat {
    if s == [] then 0 else Inversions(s[..|s| - 1]) + Larger(s[..|s| - 1], s[|s| - 1])
  }

  lemma {:induction false} LargerUnswapped(s: seq<nat>, i: nat, x: nat)
    requires i + 1 < |s|
    ensures Larger(SwapAt(s, i), x) == Larger(s, x)
  {
    var n, t := |s| - 1, SwapAt(s, i);
    if i + 1 < n {
      LargerUnswapped(s[..n], i, x);
      assert t[..n] == SwapAt(s[..n], i);
    } else {
      assert s[..n][..n - 1] == s[..i] && t[..n][..n - 1] == s[..i];
      assert Larger(s[..n], x) == Larger(s[..i], x) + (if s[i] > x then 1 else 0);
      assert Larger(t[..n], x) == Larger(s[..i], x) + (if s[i + 1] > x then 1 else 0);
    }
  }

  /** Exchanging a descent removes exactly one inversion. */
  lemma {:induction false} DescentRemoved(s: seq<nat>, i: nat)
    requires i + 1 < |s| && s[i] > s[i + 1]
    ensures Inversions(s) == Inversions(SwapAt(s, i)) + 1
  {
    var n, t := |s| - 1, SwapAt(s, i);
    if i + 1 < n {
      DescentRemoved(s[..n], i);
      LargerUnswapped(s[..n], i, s[n]);
      assert t[..n] == SwapAt(s[..n], i);
    } else {
      LastDescentRemoved(s[..i], s[i], s[n]);
      assert s == s[..i] + [s[i], s[n]] && t == s[..i] + [s[n], s[i]];
    }
  }

  lemma {:induction false} LastDescentRemoved(front: seq<nat>, x: nat, y: nat)
    requires x > y
    ensures Inversions(front + [x, y]) == Inversions(front + [y, x]) + 1
  {
    InversionsOfTwo(front, x, y);
    InversionsOfTwo(front, y, x);
  }

  lemma {:induction false} InversionsOfTwo(front: seq<nat>, x: nat, y: nat)
    ensures Inversions(front + [x, y])
            == Inversions(front) + Larger(front, x) + Larger(front, y) + (if x > y then 1 else 0)
  {
    assert (front + [x, y])[..|front| + 1] == front + [x];
    LastOnFront(front, x, y);
  }

  lemma {:induction false} LastOnFront(front: seq<nat>, x: nat, y: nat)
    ensures Inversions(front + [x]) == Inversions(front) + Larger(front, x)
    ensures Larger(front + [x], y) == Larger(front, y) + (if x > y then 1 else 0)
  {
    assert (front + [x])[..|front|] == front;
  }

  // ---------- Every allowed permutation is reached ----------

  ghost predicate Ascending(s: seq<nat>) {
    forall i, j :: 0 <= i < j < |s| ==> s[i] < s[j]
  }

  lemma {:induction false} AdjacentDescent(s: seq<nat>, i: nat, j: nat) returns (k: nat)
    requires i < j < |s| && s[i] > s[j]
    ensures k + 1 < |s| && s[k] > s[k + 1]
    decreases j - i
  {
    k := i;
    if s[i] <= s[i + 1] {
      k := AdjacentDescent(s, i + 1, j);
    }
  }

  lemma {:induction false} AtLeastIndex(s: seq<nat>, i: nat)
    requires Ascending(s) && i < |s|
    ensures s[i] >= i
  {
    if i > 0 {
      AtLeastIndex(s, i - 1);
    }
  }

  lemma {:induction false} AtMostIndex(s: seq<nat>, i: nat)
    requires Ascending(s) && i < |s| && s[|s| - 1] < |s|
    ensures s[i] <= i
    decreases |s| - i
  {
    if i + 1 < |s| {
      AtMostIndex(s, i + 1);
    }
  }

  lemma {:induction false} AscendingIsIdentity(s: seq<nat>, n: nat)
    requires Ascending(s) && Permutation(s, n)
    ensures s == Identity(n)
  {
    forall i: nat | i < n
      ensures s[i] == i
    {
      assert s[n - 1] in s;
      AtLeastIndex(s, i);
      AtMostIndex(s, i);
    }
  }

  lemma {:induction false} SwapBack(s: seq<nat>, i: nat)
    requires i + 1 < |s|
    ensures SwapAt(SwapAt(s, i), i) == s
  {}

  /** Undoing a descent keeps what is allowed. */
  lemma {:induction false} UndoneDescent(g: set<(nat, nat)>, s: seq<nat>, i: nat)
    requires InversionsAllowed(g, s) && i + 1 < |s| && s[i] > s[i + 1]
    ensures InversionsAllowed(g, SwapAt(s, i))
  {
    var t := SwapAt(s, i);
    forall a, b | 0 <= a < b < |t| && t[a] > t[b]
      ensures (t[b], t[a]) in g
    {
      var c := if a == i then i + 1 else if a == i + 1 then i else a;
      var d := if b == i then i + 1 else if b == i + 1 then i else b;
      assert t[a] == s[c] && t[b] == s[d];
    }
  }

  lemma {:induction false} OneMore(g: set<(nat, nat)>, n: nat, t: seq<nat>, s: seq<nat>, k: nat)
    requires k > 0 && ReachedIn(g, n, t, k - 1) && OneSwap(g, t, s)
    ensures ReachedIn(g, n, s, k)
  {}

  lemma {:induction false} Descent(g: set<(nat, nat)>, n: nat, s: seq<nat>, i: nat)
    requires Permutation(s, n) && InversionsAllowed(g, s) && i + 1 < |s| && s[i] > s[i + 1]
    ensures Permutation(SwapAt(s, i), n) && InversionsAllowed(g, SwapAt(s, i))
    ensures Inversions(s) == Inversions(SwapAt(s, i)) + 1 && OneSwap(g, SwapAt(s, i), s)
  {
    DescentRemoved(s, i);
    SwapKeepsPermutation(n, s, i);
    UndoneDescent(g, s, i);
    SwapBack(s, i);
    assert SwapsTo(g, SwapAt(s, i), i, s);
  }

  lemma {:induction false} BaselineIsReached(g: set<(nat, nat)>, n: nat, s: seq<nat>)
    requires Permutation(s, n) && Ascending(s)
    ensures Inversions(s) == 0 && ReachedIn(g, n, s, 0)
  {
    AscendingIsIdentity(s, n);
    NoInversions(s);
  }

  lemma {:induction false} SomeDescent(s: seq<nat>, n: nat) returns (i: nat)
    requires Permutation(s, n) && !Ascending(s)
    ensures i + 1 < |s| && s[i] > s[i + 1]
  {
    var x, y :| 0 <= x < y < |s| && s[x] >= s[y];
    i := AdjacentDescent(s, x, y);
  }

  /** A permutation whose inversions are all allowed is reached, with one swap
      for every inversion. */
  lemma {:induction false} AllowedIsReached(g: set<(nat, nat)>, n: nat, s: seq<nat>, k: nat)
    requires Permutation(s, n) && InversionsAllowed(g, s) && Inversions(s) == k
    ensures ReachedIn(g, n, s, k)
    decreases k
  {
    hide Permutation, InversionsAllowed, Inversions, ReachedIn, OneSwap, Ascending;
    if Ascending(s) {
      BaselineIsReached(g, n, s);
    } else {
      var i := SomeDescent(s, n);
      Descent(g, n, s, i);
      AllowedIsReached(g, n, SwapAt(s, i), k - 1);
      OneMore(g, n, SwapAt(s, i), s, k);
    }
  }

  lemma {:induction false} NoInversions(s: seq<nat>)
    requires Ascending(s)
    ensures Inversions(s) == 0
  {
    if s != [] {
      var n := |s| - 1;
      NoInversions(s[..n]);
      NoneLarger(s, n);
    }
  }

  lemma {:induction false} NoneLarger(s: seq<nat>, k: nat)
    requires Ascending(s) && k < |s|
    ensures forall x: nat :: x >= s[k] ==> Larger(s[..k], x) == 0
  {
    if k > 0 {
      NoneLarger(s, k - 1);
      assert s[..k][..k - 1] == s[..k - 1];
    }
  }

  ghost predicate Reachable(g: set<(nat, nat)>, n: nat, s: seq<nat>) {
    exists k: nat :: ReachedIn(g, n, s, k)
  }

  /** The schedules that swaps reach are exactly the permutations in which
      every pair in opposite order was allowed to pass. */
  lemma {:induction false} ReachedIffAllowed(g: set<(nat, nat)>, n: nat, s: seq<nat>)
    requires forall a, b :: (a, b) in g ==> a < n && b < n
    ensures Reachable(g, n, s) <==> Permutation(s, n) && InversionsAllowed(g, s)
  {
    if Reachable(g, n, s) {
      var k: nat :| ReachedIn(g, n, s, k);
      ReachedKeeps(g, Below(n), n, s, k);
    }
    if Permutation(s, n) && InversionsAllowed(g, s) {
      AllowedIsReached(g, n, s, Inversions(s));
    }
  }

  // ---------- Which two nodes can change their order ----------

  /** Pairs that never change their order: no swap may pass them directly. */
  ghost function Fixed(g: set<(nat, nat)>, n: nat): set<(nat, nat)> {
    set a: nat, b: nat | a < n && b < n && a < b && (a, b) !in g :: (a, b)
  }

  ghost predicate Precedes(s: seq<nat>, a: nat, b: nat) {
    exists i, j :: 0 <= i < j < |s| && s[i] == a && s[j] == b
  }

  /** A chain of fixed pairs keeps its ends in order. */
  lemma {:induction false} ChainKeepsOrder(g: set<(nat, nat)>, n: nat, s: seq<nat>, a: nat, b: nat)
    requires Permutation(s, n) && InversionsAllowed(g, s) && a < n && Reaches(Fixed(g, n), a, b)
    ensures !Precedes(s, b, a)
  {
    assert a in s;
    var p :| 0 <= p < n && s[p] == a;
    var after := set k | p <= k < n :: s[k];
    forall x, y | x in after && (x, y) in Fixed(g, n)
      ensures y in after
    {
      var i :| p <= i < n && s[i] == x;
      assert y in s;
      var j :| 0 <= j < n && s[j] == y;
    }
    ClosedSetHoldsReachable(Fixed(g, n), after, a, b);
    var q :| p <= q < n && s[q] == b;
  }

  /** The numbers below m that are in u, or those that are not, ascending. */
  function Select(u: set<nat>, m: nat, inside: bool): seq<nat> {
    if m == 0 then []
    else Select(u, m - 1, inside) + (if (m - 1 in u) == inside then [m - 1] else [])
  }

  lemma {:induction false} AscendingAppend(s: seq<nat>, x: nat)
    requires Ascending(s) && forall v :: v in s ==> v < x
    ensures Ascending(s + [x]) && forall v :: v in s + [x] <==> v in s || v == x
  {
    forall i, j | 0 <= i < j < |s + [x]|
      ensures (s + [x])[i] < (s + [x])[j]
    {
      assert s[i] in s;
    }
  }

  lemma {:induction false} SelectMembers(u: set<nat>, m: nat, inside: bool)
    ensures forall v :: v in Select(u, m, inside) <==> 0 <= v < m && (v in u) == inside
    ensures Ascending(Select(u, m, inside))
  {
    if m > 0 {
      var before := Select(u, m - 1, inside);
      SelectMembers(u, m - 1, inside);
      AscendingAppend(before, m - 1);
    }
  }

  lemma {:induction false} SelectSizes(u: set<nat>, m: nat)
    ensures |Select(u, m, true)| + |Select(u, m, false)| == m
  {
    if m > 0 {
      SelectSizes(u, m - 1);
    }
  }

  /** The numbers above b and below n, ascending. */
  function Above(b: nat, n: nat): (s: seq<nat>)
    requires b < n
    ensures |s| == n - b - 1 && forall i :: 0 <= i < |s| ==> s[i] == b + 1 + i
  {
    if b + 1 == n then [] else Above(b, n - 1) + [n - 1]
  }

  /** First what is not in u, then what is, up to b; then what comes after. */
  function Postponed(u: set<nat>, b: nat, n: nat): seq<nat>
    requires b < n
  {
    Select(u, b + 1, false) + Select(u, b + 1, true) + Above(b, n)
  }

  /** Three ascending stretches: up to b without u, u itself, above b. */
  ghost predicate Parts(u: set<nat>, b: nat, n: nat, first: seq<nat>, second: seq<nat>, third: seq<nat>) {
    && Ascending(first) && Ascending(second) && Ascending(third)
    && (forall v :: v in first <==> 0 <= v <= b && v !in u)
    && (forall v :: v in second <==> 0 <= v <= b && v in u)
    && (forall v :: v in third <==> b < v < n)
  }

  lemma {:induction false} PostponedHasParts(u: set<nat>, b: nat, n: nat)
    requires b < n
    ensures Parts(u, b, n, Select(u, b + 1, false), Select(u, b + 1, true), Above(b, n))
    ensures |Postponed(u, b, n)| == n
  {
    SelectMembers(u, b + 1, false);
    SelectMembers(u, b + 1, true);
    SelectSizes(u, b + 1);
    var third := Above(b, n);
    forall v
      ensures v in third <==> b < v < n
    {
      if b < v < n {
        assert third[v - b - 1] == v;
      }
    }
  }

  lemma {:induction false} PartsOrder(u: set<nat>, b: nat, n: nat, first: seq<nat>, second: seq<nat>, third: seq<nat>,
                                      i: nat, j: nat)
    requires Parts(u, b, n, first, second, third) && i < j < |first + second + third|
    ensures var s := first + second + third;
            s[i] < s[j] || (s[j] < s[i] <= b && s[i] !in u && s[j] in u)
  {
    var s, m, l := first + second + third, |first|, |first| + |second|;
    if j < m {
      assert s[i] == first[i] && s[j] == first[j];
    } else if i < m {
      assert s[i] in first;
      assert j < l ==> s[j] == second[j - m] && s[j] in second;
      assert j >= l ==> s[j] == third[j - l] && s[j] in third;
    } else if i < l {
      assert s[i] == second[i - m] && s[i] in second;
      assert j < l ==> s[j] == second[j - m];
      assert j >= l ==> s[j] == third[j - l] && s[j] in third;
    } else {
      assert s[i] == third[i - l] && s[j] == third[j - l];
    }
  }

  lemma {:induction false} PartsMembers(u: set<nat>, b: nat, n: nat, first: seq<nat>, second: seq<nat>, third: seq<nat>,
                                        v: int)
    requires Parts(u, b, n, first, second, third) && b < n
    ensures v in first + second + third <==> 0 <= v < n
  {}

  lemma {:induction false} PartsEnds(a: nat, b: nat, first: seq<nat>, second: seq<nat>, third: seq<nat>)
    requires b in first && a in second
    ensures Precedes(first + second + third, b, a)
  {
    var s := first + second + third;
    var i :| 0 <= i < |first| && first[i] == b;
    var j :| 0 <= j < |second| && second[j] == a;
    assert s[i] == b && s[|first| + j] == a;
  }

  /** What a fixed chain leads to from a, up to b. */
  ghost function Late(g: set<(nat, nat)>, n: nat, a: nat, b: nat): set<nat> {
    set x: nat | x <= b && Reaches(Fixed(g, n), a, x)
  }

  /** What stands in opposite order was allowed to pass. */
  lemma {:induction false} PostponedPair(g: set<(nat, nat)>, n: nat, a: nat, b: nat, x: nat, y: nat)
    requires b < n && y < x <= b && x !in Late(g, n, a, b) && y in Late(g, n, a, b)
    ensures (y, x) in g
  {
    if (y, x) !in g {
      ReachesSelf(Fixed(g, n), x);
      ReachesStep(Fixed(g, n), y, x, x);
      ReachesTrans(Fixed(g, n), a, y, x);
    }
  }

  lemma {:induction false} PostponedIsAllowed(g: set<(nat, nat)>, n: nat, a: nat, b: nat)
    requires a < b < n && !Reaches(Fixed(g, n), a, b)
    ensures var s := Postponed(Late(g, n, a, b), b, n);
            Permutation(s, n) && InversionsAllowed(g, s) && Precedes(s, b, a)
  {
    var u := Late(g, n, a, b);
    var first, second, third := Select(u, b + 1, false), Select(u, b + 1, true), Above(b, n);
    var s := first + second + third;
    PostponedHasParts(u, b, n);
    forall i, j | 0 <= i < j < |s|
      ensures s[i] != s[j] && (s[i] > s[j] ==> (s[j], s[i]) in g)
    {
      PartsOrder(u, b, n, first, second, third, i, j);
      if s[i] > s[j] {
        PostponedPair(g, n, a, b, s[i], s[j]);
      }
    }
    forall v: int
      ensures v in s <==> 0 <= v < n
    {
      PartsMembers(u, b, n, first, second, third, v);
    }
    ReachesSelf(Fixed(g, n), a);
    PartsEnds(a, b, first, second, third);
  }

  /** Some reachable schedule puts b before a. */
  ghost predicate CanPass(g: set<(nat, nat)>, n: nat, a: nat, b: nat) {
    exists s :: Reachable(g, n, s) && Precedes(s, b, a)
  }

  /** For a before b in the baseline: b can pass a exactly when no chain of
      fixed pairs leads from a to b. */
  lemma {:induction false} OrderReversible(g: set<(nat, nat)>, n: nat, a: nat, b: nat)
    requires a < b < n && forall x, y :: (x, y) in g ==> x < n && y < n
    ensures CanPass(g, n, a, b) <==> !Reaches(Fixed(g, n), a, b)
  {
    if CanPass(g, n, a, b) && Reaches(Fixed(g, n), a, b) {
      var s :| Reachable(g, n, s) && Precedes(s, b, a);
      ReachedIffAllowed(g, n, s);
      ChainKeepsOrder(g, n, s, a, b);
    }
    if !Reaches(Fixed(g, n), a, b) {
      var s := Postponed(Late(g, n, a, b), b, n);
      PostponedIsAllowed(g, n, a, b);
      ReachedIffAllowed(g, n, s);
      assert Reachable(g, n, s) && Precedes(s, b, a);
    }
  }

  // ---------- Timelines ----------

  /** Two nodes can change their order exactly when no chain of later and later
      nodes leads from one to the other in which neighbours may not pass each
      other: nodes of one thread, nodes with an edge, and other nodes. */
  lemma {:induction false} NodesReversible(t: Timeline, a: nat, b: nat)
    requires Valid(t) && a < b < |t.nodes|
    ensures CanPass(Allowed(t), |t.nodes|, a, b) <==> !Reaches(Fixed(Allowed(t), |t.nodes|), a, b)
  {
    OrderReversible(Allowed(t), |t.nodes|, a, b);
  }

  /** One execution context does not make one thread: with different metadata
      its two neighbouring nodes change places. */
  lemma {:induction false} ContextIsReordered(t: Timeline)
    requires Valid(t) && |t.nodes| == 2 && t.edges == [] && IsSyncNode(t.nodes[0]) && IsSyncNode(t.nodes[1])
    requires SameContext(t.nodes[0], t.nodes[1])
    requires t.nodes[0].metadata != "" && t.nodes[1].metadata != "" && t.nodes[0].metadata != t.nodes[1].metadata
    ensures ReachedIn(Allowed(t), |t.nodes|, [1, 0], 1)
  {
    var g, baseline := Allowed(t), Identity(|t.nodes|);
    assert (0, 1) in g;
    assert baseline == [0, 1] && SwapAt(baseline, 0) == [1, 0];
    assert SwapsTo(g, baseline, 0, [1, 0]);
    assert ReachedIn(g, |t.nodes|, baseline, 0) && OneSwap(g, baseline, [1, 0]);
  }
}
