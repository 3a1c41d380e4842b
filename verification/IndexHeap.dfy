/** The binary min-heap of node indices that drives the causal ordering. Both
    operations move a hole through the array and write the value once. The
    ghost sequence in each loop is the heap with the hole already filled. */
module IndexHeap {

  function Parent(i: nat): nat
    requires i > 0
  {
    (i - 1) / 2
  }

  ghost predicate HeapOrdered(s: seq<nat>) {
    forall i {:trigger Parent(i)} :: 0 < i < |s| ==> s[Parent(i)] <= s[i]
  }

  /** Ordered except that the value at `hole` may be smaller than its parent. */
  ghost predicate OrderedAbove(s: seq<nat>, hole: nat) {
    hole < |s|
    && (forall i {:trigger Parent(i)} :: 0 < i < |s| && i != hole ==> s[Parent(i)] <= s[i])
    && (forall i {:trigger Parent(i)} :: 0 < i < |s| && Parent(i) == hole && hole > 0 ==> s[Parent(hole)] <= s[i])
  }

  /** Ordered except that the value at `hole` may be larger than its children. */
  ghost predicate OrderedBelow(s: seq<nat>, hole: nat) {
    hole < |s|
    && (forall i {:trigger Parent(i)} :: 0 < i < |s| && Parent(i) != hole ==> s[Parent(i)] <= s[i])
    && (forall i {:trigger Parent(i)} :: 0 < i < |s| && Parent(i) == hole && hole > 0 ==> s[Parent(hole)] <= s[i])
  }

  /** t is s with two places exchanged. */
  ghost predicate Exchanged(s: seq<nat>, t: seq<nat>, i: nat, j: nat) {
    i < |s| == |t| && j < |s| && t[i] == s[j] && t[j] == s[i]
    && forall k :: 0 <= k < |s| && k != i && k != j ==> t[k] == s[k]
  }

  lemma {:induction false} RootIsLeast(s: seq<nat>, k: nat)
    requires HeapOrdered(s) && k < |s|
    ensures s[0] <= s[k]
  {
    if k > 0 {
      RootIsLeast(s, Parent(k));
    }
  }

  lemma {:induction false} ExchangeKeepsMultiset(s: seq<nat>, t: seq<nat>, i: nat, j: nat)
    requires Exchanged(s, t, i, j)
    ensures multiset(t) == multiset(s)
  {
    assert t == s[i := s[j]][j := s[i]];
  }

  lemma {:induction false} SiftUpStep(s: seq<nat>, hole: nat) returns (t: seq<nat>)
    requires OrderedAbove(s, hole) && hole > 0 && s[Parent(hole)] > s[hole]
    ensures Exchanged(s, t, hole, Parent(hole)) && multiset(t) == multiset(s)
    ensures OrderedAbove(t, Parent(hole))
  {
    var p := Parent(hole);
    t := s[hole := s[p]][p := s[hole]];
    ExchangeKeepsMultiset(s, t, hole, p);
    forall i | 0 < i < |t| && i != p
      ensures t[Parent(i)] <= t[i]
    {
      assert p > 0 ==> s[Parent(p)] <= s[p];
    }
    forall i | 0 < i < |t| && Parent(i) == p && p > 0
      ensures t[Parent(p)] <= t[i]
    {
      assert s[Parent(p)] <= s[p] <= s[i] || i == hole;
    }
  }

  lemma {:induction false} SiftDownStep(s: seq<nat>, hole: nat, child: nat) returns (t: seq<nat>)
    requires OrderedBelow(s, hole) && 0 < child < |s| && Parent(child) == hole && s[child] < s[hole]
    requires 2 * hole + 1 < |s| ==> s[child] <= s[2 * hole + 1]
    requires 2 * hole + 2 < |s| ==> s[child] <= s[2 * hole + 2]
    ensures Exchanged(s, t, hole, child) && multiset(t) == multiset(s)
    ensures OrderedBelow(t, child)
  {
    t := s[hole := s[child]][child := s[hole]];
    ExchangeKeepsMultiset(s, t, hole, child);
    assert forall i {:trigger Parent(i)} :: 0 < i && Parent(i) == hole ==> i == 2 * hole + 1 || i == 2 * hole + 2;
    forall i | 0 < i < |t| && Parent(i) != child
      ensures t[Parent(i)] <= t[i]
    {
      assert hole > 0 ==> s[Parent(hole)] <= s[child];
    }
    forall i | 0 < i < |t| && Parent(i) == child
      ensures t[Parent(child)] <= t[i]
    {
      assert s[Parent(i)] <= s[i];
    }
  }

  lemma {:induction false} SiftDownDone(s: seq<nat>, hole: nat)
    requires OrderedBelow(s, hole)
    requires 2 * hole + 1 < |s| ==> s[hole] <= s[2 * hole + 1]
    requires 2 * hole + 2 < |s| ==> s[hole] <= s[2 * hole + 2]
    ensures HeapOrdered(s)
  {
    forall i | 0 < i < |s|
      ensures s[Parent(i)] <= s[i]
    {
      assert Parent(i) == hole ==> i == 2 * hole + 1 || i == 2 * hole + 2;
    }
  }

  /** The loop of heap_push: moves the hole up from `hole` until the value
      fits. `start` is the heap with the value in the hole. */
  method RaiseHole(heap: array<nat>, size: nat, hole: nat, value: nat, ghost start: seq<nat>)
    requires hole < size == |start| <= heap.Length && start[hole] == value
    requires forall k :: 0 <= k < size && k != hole ==> start[k] == heap[k]
    requires OrderedAbove(start, hole)
    modifies heap
    ensures HeapOrdered(heap[..size])
    ensures multiset(heap[..size]) == multiset(start)
  {
    ghost var filled := start;
    var index := hole;
    while index > 0
      invariant 0 <= index < size == |filled| && filled[index] == value
      invariant forall k :: 0 <= k < size && k != index ==> filled[k] == heap[k]
      invariant OrderedAbove(filled, index)
      invariant multiset(filled) == multiset(start)
    {
      var parent := (index - 1) / 2;
      assert parent == Parent(index);
      if heap[parent] <= value {
        break;
      }
      filled := SiftUpStep(filled, index);
      heap[index] := heap[parent];
      index := parent;
    }
    heap[index] := value;
    assert heap[..size] == filled;
  }

  /** heap_push: refused exactly at capacity; otherwise the value joins the
      multiset and the order is kept. */
  method HeapPush(heap: array<nat>, capacity: nat, size: nat, value: nat) returns (ok: bool, newSize: nat)
    requires size <= heap.Length && capacity <= heap.Length
    requires HeapOrdered(heap[..size])
    modifies heap
    ensures ok <==> size < capacity
    ensures !ok ==> newSize == size && heap[..] == old(heap[..])
    ensures ok ==> newSize == size + 1 && HeapOrdered(heap[..newSize])
    ensures ok ==> multiset(heap[..newSize]) == multiset(old(heap[..size])) + multiset{value}
  {
    ok, newSize := false, size;
    if size < capacity {
      newSize := size + 1;
      RaiseHole(heap, newSize, size, value, heap[..size] + [value]);
      ok := true;
    }
  }

  /** Taking the root out and putting the last value in its place. */
  lemma {:induction false} ReplaceRoot(s: seq<nat>) returns (t: seq<nat>)
    requires HeapOrdered(s) && |s| > 1
    ensures |t| == |s| - 1 && t[0] == s[|s| - 1] && OrderedBelow(t, 0)
    ensures forall k :: 0 < k < |t| ==> t[k] == s[k]
    ensures multiset(t) + multiset{s[0]} == multiset(s)
  {
    var last := s[|s| - 1];
    t := [last] + s[1..|s| - 1];
    assert s == [s[0]] + s[1..|s| - 1] + [last];
  }

  lemma {:induction false} RootIsLeastOfAll(s: seq<nat>)
    requires HeapOrdered(s)
    ensures forall x :: x in s ==> s[0] <= x
  {
    forall k | 0 <= k < |s|
      ensures s[0] <= s[k]
    {
      RootIsLeast(s, k);
    }
  }

  /** The loop of heap_pop: moves the hole at the root down until the value
      fits. `start` is the heap with the value at the root. */
  method SinkHole(heap: array<nat>, size: nat, value: nat, ghost start: seq<nat>)
    requires 0 < size == |start| <= heap.Length && start[0] == value
    requires forall k :: 0 < k < size ==> start[k] == heap[k]
    requires OrderedBelow(start, 0)
    modifies heap
    ensures HeapOrdered(heap[..size])
    ensures multiset(heap[..size]) == multiset(start)
  {
    ghost var filled := start;
    var index := 0;
    while index * 2 + 1 < size
      invariant 0 <= index < size == |filled| && filled[index] == value
      invariant forall k :: 0 <= k < size && k != index ==> filled[k] == heap[k]
      invariant OrderedBelow(filled, index)
      invariant index > 0 ==> filled[Parent(index)] <= value
      invariant multiset(filled) == multiset(start)
    {
      var child := index * 2 + 1;
      if child + 1 < size && heap[child + 1] < heap[child] {
        child := child + 1;
      }
      if heap[child] >= value {
        break;
      }
      filled := SiftDownStep(filled, index, child);
      heap[index] := heap[child];
      index := child;
    }
    SiftDownDone(filled, index);
    heap[index] := value;
    assert heap[..size] == filled;
  }

  /** heap_pop: removes and returns the least member. */
  method HeapPop(heap: array<nat>, size: nat) returns (root: nat, newSize: nat)
    requires 0 < size <= heap.Length
    requires HeapOrdered(heap[..size])
    modifies heap
    ensures newSize == size - 1
    ensures HeapOrdered(heap[..newSize])
    ensures multiset(heap[..newSize]) + multiset{root} == multiset(old(heap[..size]))
    ensures forall x :: x in old(heap[..size]) ==> root <= x
  {
    root := heap[0];
    newSize := size - 1;
    var value := heap[newSize];
    RootIsLeastOfAll(heap[..size]);
    if newSize > 0 {
      ghost var start := ReplaceRoot(heap[..size]);
      SinkHole(heap, newSize, value, start);
    } else {
      assert heap[..size] == [root];
    }
  }
}
