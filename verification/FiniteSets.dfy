/** Counting facts about finite sets. */
module FiniteSets {

  ghost function Below(n: nat): (s: set<nat>)
    ensures |s| == n && forall v :: v in s <==> 0 <= v < n
  {
    if n == 0 then {} else Below(n - 1) + {n - 1}
  }

  lemma {:induction false} SubsetSize<T>(a: set<T>, b: set<T>)
    requires a <= b
    ensures |a| <= |b|
  {
    assert b == a + (b - a);
  }

  /** More members than the set they are drawn from: two coincide. */
  lemma {:induction false} Pigeonhole<T>(p: seq<T>, s: set<T>) returns (i: nat, j: nat)
    requires forall x :: x in p ==> x in s
    requires |p| > |s|
    ensures i < j < |p| && p[i] == p[j]
    decreases |p|
  {
    var last := p[|p| - 1];
    var init := p[..|p| - 1];
    if k :| 0 <= k < |init| && init[k] == last {
      i, j := k, |p| - 1;
    } else {
      assert last in p && last in s;
      i, j := Pigeonhole(init, s - {last});
    }
  }
}
