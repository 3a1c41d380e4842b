/** The interleaving walk: breadth-first over schedules, stopping at the first
    one whose prefixes yield a finding that no prefix of the baseline yields. */
module Interleaving {
  import opened Events
  import opened FiniteSets
  import opened CausalSpec
  import opened SyncSpec
  import opened SyncAnalysis
  import opened Schedules
  import opened ScheduleSearch

  // ---------- Finding keys ----------

  datatype SyncKey = SyncKey(rule: SyncRule, from: Name, to: Name)

  function KeyOf(f: SyncFinding): SyncKey {
    SyncKey(f.rule, f.from, f.to)
  }

  /** The keys of all findings of the first p prefixes. */
  ghost predicate PrefixKey(events: seq<SyncEvent>, p: nat, key: SyncKey) {
    exists l :: 0 < l <= p && l <= |events| && Reported(Analyze(events[..l]), key.rule, key.from, key.to)
  }

  method KeyPresent(keys: seq<SyncKey>, key: SyncKey) returns (present: bool)
    ensures present <==> key in keys
  {
    var index := 0;
    present := false;
    while index < |keys| && !present
      invariant index <= |keys| && (present <==> key in keys[..index])
    {
      present := keys[index] == key;
      index := index + 1;
    }
    assert index == |keys| ==> keys[..index] == keys;
  }

  /** Adds the keys of findings that are not there yet. */
  method AddKeys(keys: seq<SyncKey>, findings: seq<SyncFinding>) returns (result: seq<SyncKey>)
    ensures forall key :: key in result <==> key in keys || Reported(findings, key.rule, key.from, key.to)
    ensures (forall i, j :: 0 <= i < j < |keys| ==> keys[i] != keys[j]) ==>
            forall i, j :: 0 <= i < j < |result| ==> result[i] != result[j]
  {
    result := keys;
    var index := 0;
    while index < |findings|
      invariant index <= |findings|
      invariant forall key :: key in result <==> key in keys || exists f :: f in findings[..index] && KeyOf(f) == key
      invariant (forall i, j :: 0 <= i < j < |keys| ==> keys[i] != keys[j]) ==>
                forall i, j :: 0 <= i < j < |result| ==> result[i] != result[j]
    {
      var f := findings[index];
      assert findings[..index + 1] == findings[..index] + [f];
      var present := KeyPresent(result, KeyOf(f));
      if !present {
        result := result + [KeyOf(f)];
      }
      index := index + 1;
    }
    assert findings[..index] == findings;
    forall key
      ensures (exists f :: f in findings && KeyOf(f) == key) <==> Reported(findings, key.rule, key.from, key.to)
    {
      if f :| f in findings && KeyOf(f) == key {
        assert SameFinding(f, key.rule, key.from, key.to);
      }
      if f :| f in findings && SameFinding(f, key.rule, key.from, key.to) {
        assert KeyOf(f) == key;
      }
    }
  }

  /** collect_prefix_sync_keys: the analysis is run on every prefix. */
  method CollectPrefixKeys(order: seq<Node>) returns (keys: seq<SyncKey>)
    ensures forall key :: key in keys <==> PrefixKey(EventsOf(order), |order|, key)
    ensures forall i, j :: 0 <= i < j < |keys| ==> keys[i] != keys[j]
  {
    keys := [];
    ghost var events := EventsOf(order);
    var prefix := 1;
    while prefix <= |order|
      invariant 1 <= prefix <= |order| + 1
      invariant forall key :: key in keys <==> PrefixKey(events, prefix - 1, key)
      invariant forall i, j :: 0 <= i < j < |keys| ==> keys[i] != keys[j]
    {
      var findings := AnalyzeSynchronization(order[..prefix]);
      assert EventsOf(order[..prefix]) == events[..prefix];
      ghost var before := keys;
      keys := AddKeys(keys, findings);
      forall key
        ensures key in keys <==> PrefixKey(events, prefix, key)
      {
        PrefixKeyNext(events, prefix, key);
      }
      prefix := prefix + 1;
    }
  }

  lemma {:induction false} PrefixKeyNext(events: seq<SyncEvent>, p: nat, key: SyncKey)
    requires 0 < p <= |events|
    ensures PrefixKey(events, p, key)
            <==> PrefixKey(events, p - 1, key) || Reported(Analyze(events[..p]), key.rule, key.from, key.to)
  {
    if PrefixKey(events, p - 1, key) {
      var l :| 0 < l <= p - 1 && l <= |events| && Reported(Analyze(events[..l]), key.rule, key.from, key.to);
      assert PrefixKey(events, p, key);
    }
  }

  // ---------- Schedules with a new finding ----------

  function ScheduleNodes(t: Timeline, s: seq<nat>): seq<Node>
    requires forall v :: v in s ==> v < |t.nodes|
  {
    seq(|s|, i requires 0 <= i < |s| => assert s[i] in s; t.nodes[s[i]])
  }

  ghost predicate NovelKey(t: Timeline, s: seq<nat>, key: SyncKey)
    requires forall v :: v in s ==> v < |t.nodes|
  {
    PrefixKey(EventsOf(ScheduleNodes(t, s)), |s|, key) && !PrefixKey(EventsOf(t.nodes), |t.nodes|, key)
  }

  /** Some prefix of the schedule has a finding that no prefix of the baseline has. */
  ghost predicate Novel(t: Timeline, s: seq<nat>) {
    (forall v :: v in s ==> v < |t.nodes|) && exists key :: NovelKey(t, s, key)
  }

  lemma {:induction false} BaselineIsNotNovel(t: Timeline)
    ensures !Novel(t, Identity(|t.nodes|))
  {
    assert ScheduleNodes(t, Identity(|t.nodes|)) == t.nodes;
  }

  method CountNewKeys(baseline: seq<SyncKey>, keys: seq<SyncKey>) returns (count: nat)
    ensures count > 0 <==> exists key :: key in keys && key !in baseline
  {
    count := 0;
    var index := 0;
    while index < |keys|
      invariant index <= |keys|
      invariant count > 0 <==> exists key :: key in keys[..index] && key !in baseline
    {
      assert keys[..index + 1] == keys[..index] + [keys[index]];
      var present := KeyPresent(baseline, keys[index]);
      if !present {
        count := count + 1;
      }
      index := index + 1;
    }
    assert keys[..index] == keys;
  }

  /** Checks one schedule against the baseline's keys. */
  method CheckSchedule(t: Timeline, baseline: seq<SyncKey>, s: seq<nat>) returns (novel: bool)
    requires forall v :: v in s ==> v < |t.nodes|
    requires forall key :: key in baseline <==> PrefixKey(EventsOf(t.nodes), |t.nodes|, key)
    ensures novel <==> Novel(t, s)
  {
    var nodes := ScheduleNodes(t, s);
    var keys := CollectPrefixKeys(nodes);
    var count := CountNewKeys(baseline, keys);
    novel := count > 0;
    assert forall key :: NovelKey(t, s, key) <==> key in keys && key !in baseline;
  }

  // ---------- The walk ----------

  method ScheduleSeen(orders: seq<seq<nat>>, candidate: seq<nat>) returns (seen: bool)
    ensures seen <==> candidate in orders
  {
    seen := false;
    var index := 0;
    while index < |orders| && !seen
      invariant index <= |orders| && (seen <==> candidate in orders[..index])
    {
      seen := orders[index] == candidate;
      index := index + 1;
    }
    assert index == |orders| ==> orders[..index] == orders;
  }

  method FindEdge(edges: seq<ModelEdge>, left: nat, right: nat) returns (found: bool)
    ensures found <==> DirectlyOrdered(edges, left, right)
  {
    found := false;
    var index := 0;
    while index < |edges| && !found
      invariant index <= |edges| && (found ==> DirectlyOrdered(edges, left, right))
      invariant !found ==> forall k :: 0 <= k < index ==> edges[k].from != left || edges[k].to != right
    {
      assert edges[index] in edges;
      found := edges[index].from == left && edges[index].to == right;
      index := index + 1;
    }
  }

  method IsEligible(t: Timeline, left: nat, right: nat) returns (eligible: bool)
    requires Valid(t) && left < |t.nodes| && right < |t.nodes|
    ensures eligible <==> (left, right) in Allowed(t)
    ensures eligible <==> IsSyncNode(t.nodes[left]) && IsSyncNode(t.nodes[right]) && Strangers(t, left, right)
  {
    hide IsSyncNode;
    eligible := IsSyncNode(t.nodes[left]);
    if eligible {
      eligible := IsSyncNode(t.nodes[right]);
    }
    if eligible {
      eligible := !SameSyncThread(t.nodes[left], t.nodes[right]);
    }
    if eligible {
      var ordered := FindEdge(t.edges, t.original[left], t.original[right]);
      eligible := !ordered;
    }
  }

  /** Only the newest schedule may have a new finding, and only when counted. */
  ghost predicate Clean(t: Timeline, s: Search, counterexamples: nat) {
    counterexamples <= 1 <= |s.orders|
    && (forall k :: 0 <= k < |s.orders| - counterexamples ==> !Novel(t, s.orders[k]))
    && (counterexamples == 1 ==> Novel(t, s.orders[|s.orders| - 1]))
  }

  lemma {:induction false} EntryMembers(t: Timeline, s: Search, k: nat)
    requires Valid(t) && Tree(Allowed(t), |t.nodes|, s) && k < |s.orders|
    ensures |s.orders[k]| == |t.nodes| && forall v :: v in s.orders[k] ==> v < |t.nodes|
  {
    RecordedIsReached(Allowed(t), |t.nodes|, s, k);
    ReachedKeeps(Allowed(t), Below(|t.nodes|), |t.nodes|, s.orders[k], Depth(s.parents, k));
  }

  /** Records a new schedule, the swap at `index` of entry q, and checks it. */
  method RecordSwap(t: Timeline, baseline: seq<SyncKey>, s0: Search, q: nat, index: nat) returns (s: Search,
                    novel: bool)
    requires Valid(t) && q < |s0.orders| && index + 1 < |s0.orders[q]|
    requires Queue(Allowed(t), |t.nodes|, s0, q, index) && Clean(t, s0, 0)
    requires (s0.orders[q][index], s0.orders[q][index + 1]) in Allowed(t) && SwapAt(s0.orders[q], index) !in s0.orders
    requires forall key :: key in baseline <==> PrefixKey(EventsOf(t.nodes), |t.nodes|, key)
    ensures s == Added(s0, q, index) && Queue(Allowed(t), |t.nodes|, s, q, index + 1)
    ensures Clean(t, s, if novel then 1 else 0)
  {
    s := Added(s0, q, index);
    AddKeepsQueue(Allowed(t), |t.nodes|, s0, q, index);
    EntryMembers(t, s, |s0.orders|);
    novel := CheckSchedule(t, baseline, SwapAt(s0.orders[q], index));
    assert forall k :: 0 <= k < |s0.orders| ==> s.orders[k] == s0.orders[k];
  }

  /** Tries one adjacent pair of a queue entry. */
  method TryPair(t: Timeline, baseline: seq<SyncKey>, s0: Search, q: nat, index: nat) returns (s: Search,
                 counterexamples: nat)
    requires Valid(t) && q < |s0.orders| && index + 1 < |s0.orders[q]|
    requires Queue(Allowed(t), |t.nodes|, s0, q, index) && Clean(t, s0, 0)
    requires forall key :: key in baseline <==> PrefixKey(EventsOf(t.nodes), |t.nodes|, key)
    ensures Queue(Allowed(t), |t.nodes|, s, q, index + 1) && Clean(t, s, counterexamples)
    ensures |s0.orders| <= |s.orders| <= |s0.orders| + 1 && s.orders[q] == s0.orders[q]
    ensures counterexamples == 1 ==> |s0.orders| < |s.orders| && s.parents[|s.orders| - 1] == q
  {
    s, counterexamples := s0, 0;
    var current := s0.orders[q];
    EntryMembers(t, s0, q);
    assert current[index] in current && current[index + 1] in current;
    var eligible := IsEligible(t, current[index], current[index + 1]);
    var seen := true;
    if eligible {
      seen := ScheduleSeen(s.orders, SwapAt(current, index));
    }
    if seen {
      SkipKeepsQueue(Allowed(t), |t.nodes|, s, q, index);
    } else {
      var novel;
      s, novel := RecordSwap(t, baseline, s, q, index);
      if novel {
        counterexamples := 1;
      }
    }
  }

  lemma {:induction false} SizesWhileQueued(t: Timeline, s: Search, q: nat, upTo: nat, counterexamples: nat)
    requires Valid(t) && q < |s.orders| && Queue(Allowed(t), |t.nodes|, s, q, upTo) && Clean(t, s, counterexamples)
    ensures |s.orders[q]| == |t.nodes| && |s.parents| == |s.orders| && counterexamples <= 1
  {
    EntryMembers(t, s, q);
  }

  /** Tries every adjacent pair of one queue entry. */
  method ExpandEntry(t: Timeline, limit: nat, baseline: seq<SyncKey>, s0: Search, q: nat)
    returns (s: Search, counterexamples: nat, ghost upTo: nat)
    requires Valid(t) && q < |s0.orders| < limit
    requires Queue(Allowed(t), |t.nodes|, s0, q, 0) && Clean(t, s0, 0)
    requires forall key :: key in baseline <==> PrefixKey(EventsOf(t.nodes), |t.nodes|, key)
    ensures Queue(Allowed(t), |t.nodes|, s, q, upTo) && Clean(t, s, counterexamples)
    ensures q < |s.orders| <= limit && |s0.orders| <= |s.orders|
    ensures counterexamples == 1 ==> q < |s.orders| - 1 && s.parents[|s.orders| - 1] == q
    ensures counterexamples == 0 && |s.orders| < limit ==> upTo + 1 >= |s.orders[q]|
  {
    hide Queue, Clean, EventsOf;
    s, counterexamples := s0, 0;
    SizesWhileQueued(t, s0, q, 0, 0);
    var index := 0;
    while index + 1 < |t.nodes| && |s.orders| < limit && counterexamples == 0
      invariant |s0.orders| <= |s.orders| <= limit && |s.orders[q]| == |t.nodes|
      invariant Queue(Allowed(t), |t.nodes|, s, q, index) && Clean(t, s, counterexamples)
      invariant |s.parents| == |s.orders| && counterexamples <= 1
      invariant counterexamples == 1 ==> |s0.orders| < |s.orders| && s.parents[|s.orders| - 1] == q
    {
      s, counterexamples := TryPair(t, baseline, s, q, index);
      index := index + 1;
      SizesWhileQueued(t, s, q, index, counterexamples);
    }
    upTo := index;
  }

  /** A schedule with a new finding takes at least as many swaps as the newest. */
  ghost predicate NoNearer(t: Timeline, s: Search, u: seq<nat>, k: nat)
    requires Valid(t) && |s.orders| > 0
  {
    ReachedIn(Allowed(t), |t.nodes|, u, k) && Novel(t, u) ==> Depth(s.parents, |s.orders| - 1) <= k
  }

  /** No schedule with a new finding is nearer than the one found. */
  lemma {:induction false} FoundIsNearest(t: Timeline, s: Search, q: nat, upTo: nat, u: seq<nat>, k: nat)
    requires Valid(t) && Queue(Allowed(t), |t.nodes|, s, q, upTo) && Clean(t, s, 1)
    requires q < |s.orders| - 1 && s.parents[|s.orders| - 1] == q
    ensures NoNearer(t, s, u, k)
  {
    if ReachedIn(Allowed(t), |t.nodes|, u, k) && k < Depth(s.parents, |s.orders| - 1) {
      ReachedIsRecorded(Allowed(t), |t.nodes|, s, q, u, k);
    }
  }

  /** The newest schedule is reached, and no schedule with a new finding is
      reached in fewer swaps. */
  ghost predicate NewestIsNearest(t: Timeline, s: Search)
    requires Valid(t) && |s.orders| > 0
  {
    var last := |s.orders| - 1;
    ReachedIn(Allowed(t), |t.nodes|, s.orders[last], Depth(s.parents, last))
    && forall u, k: nat :: NoNearer(t, s, u, k)
  }

  /** Every reachable schedule is recorded and none has a new finding. */
  ghost predicate NothingToFind(t: Timeline, s: Search)
    requires Valid(t)
  {
    forall u, k :: ReachedIn(Allowed(t), |t.nodes|, u, k) ==> u in s.orders && !Novel(t, u)
  }

  lemma {:induction false} NewestIsReached(t: Timeline, s: Search)
    requires Valid(t) && Tree(Allowed(t), |t.nodes|, s)
    ensures ReachedIn(Allowed(t), |t.nodes|, s.orders[|s.orders| - 1], Depth(s.parents, |s.orders| - 1))
  {
    RecordedIsReached(Allowed(t), |t.nodes|, s, |s.orders| - 1);
  }

  lemma {:induction false} CounterexampleResult(t: Timeline, s: Search, q: nat, upTo: nat)
    requires Valid(t) && Queue(Allowed(t), |t.nodes|, s, q, upTo) && Clean(t, s, 1)
    requires q < |s.orders| - 1 && s.parents[|s.orders| - 1] == q
    ensures NewestIsNearest(t, s)
  {
    NewestIsReached(t, s);
    forall u, k: nat
      ensures NoNearer(t, s, u, k)
    {
      FoundIsNearest(t, s, q, upTo, u, k);
    }
  }

  lemma {:induction false} DrainedResult(t: Timeline, s: Search, q: nat)
    requires Valid(t) && Queue(Allowed(t), |t.nodes|, s, q, 0) && q >= |s.orders| && Clean(t, s, 0)
    ensures NothingToFind(t, s)
  {
    forall u, k | ReachedIn(Allowed(t), |t.nodes|, u, k)
      ensures u in s.orders && !Novel(t, u)
    {
      ReachedIsRecorded(Allowed(t), |t.nodes|, s, |s.orders|, u, k);
    }
  }

  /** Every schedule the walk records over a causal order is sound. */
  lemma {:induction false} RecordedSchedulesAreSound(nodes: seq<Node>, edges: seq<ModelEdge>, ordered: seq<nat>,
                                                     s: Search, k: nat)
    requires Topological(CausalArcs(nodes, edges), |nodes|, ordered)
    requires Tree(Allowed(TimelineOf(nodes, edges, ordered)), |nodes|, s) && k < |s.orders|
    ensures var t := TimelineOf(nodes, edges, ordered);
            Permutation(s.orders[k], |nodes|) && RespectsEdges(t, s.orders[k])
            && KeepsThreads(t, s.orders[k]) && KeepsOtherNodes(t, s.orders[k])
  {
    var t := TimelineOf(nodes, edges, ordered);
    CausalOrderRespectsEdges(nodes, edges, ordered);
    RecordedIsReached(Allowed(t), |nodes|, s, k);
    ReachableSchedules(t, s.orders[k], Depth(s.parents, k));
  }

  lemma {:induction false} RecordedKeepThreads(t: Timeline, s: Search)
    requires Valid(t) && Tree(Allowed(t), |t.nodes|, s)
    ensures forall k :: 0 <= k < |s.orders| ==> KeepsThreads(t, s.orders[k])
  {
    hide Allowed, Tree, KeepsThreads;
    forall k: nat | k < |s.orders|
      ensures KeepsThreads(t, s.orders[k])
    {
      RecordedIsReached(Allowed(t), |t.nodes|, s, k);
      ThreadsAreKept(t, s.orders[k], Depth(s.parents, k));
    }
  }

  // ---------- The sizes of the walk's tables ----------

  const SIZE_BYTES: nat := 8
  const ORDERED_NODE_BYTES: nat := 16

  /** The rows of the table of schedules: one place per node, at least one. */
  function RowSize(nodeCount: nat): nat {
    if nodeCount == 0 then 1 else nodeCount
  }

  /** The tables of `limit` schedules and one order of nodes have sizes in bytes
      that a size_t holds. */
  predicate TablesFit(limit: nat, nodeCount: nat) {
    limit * RowSize(nodeCount) * SIZE_BYTES <= SIZE_MAX && nodeCount * ORDERED_NODE_BYTES <= SIZE_MAX
  }

  lemma {:induction false} QuotientBounds(a: nat, b: nat, m: nat)
    requires b > 0
    ensures a <= m / b <==> a * b <= m
  {
    assert m == m / b * b + m % b && m % b < b;
    if a <= m / b {
      assert a * b <= m / b * b;
    } else {
      assert a * b >= (m / b + 1) * b == m / b * b + b;
    }
  }

  /** The divisions that keep every product within a size_t. */
  method SizesFit(limit: nat, nodeCount: nat) returns (fit: bool)
    ensures fit <==> TablesFit(limit, nodeCount)
  {
    var size := RowSize(nodeCount);
    QuotientBounds(limit, SIZE_BYTES, SIZE_MAX);
    QuotientBounds(limit, size, SIZE_MAX);
    QuotientBounds(limit * size, SIZE_BYTES, SIZE_MAX);
    QuotientBounds(nodeCount, ORDERED_NODE_BYTES, SIZE_MAX);
    RowsNotFewer(limit, size);
    fit := limit <= SIZE_MAX / SIZE_BYTES;
    if fit && nodeCount != 0 {
      fit := limit <= SIZE_MAX / nodeCount;
    }
    if fit {
      fit := limit * size <= SIZE_MAX / SIZE_BYTES && nodeCount <= SIZE_MAX / ORDERED_NODE_BYTES;
    }
  }

  lemma {:induction false} RowsNotFewer(limit: nat, size: nat)
    requires size > 0
    ensures limit <= limit * size <= limit * size * SIZE_BYTES
    ensures limit * SIZE_BYTES <= limit * size * SIZE_BYTES
  {
    assert limit * size == limit + limit * (size - 1) && limit * (size - 1) >= 0;
  }

  /** The search of p101_tool_analysis_write_interleaving. A counterexample
      uses the fewest swaps of all; a queue drained below the bound has
      recorded every reachable schedule, and none has a new finding. It is
      refused exactly for no schedule or for tables too large to count. */
  method Walk(t: Timeline, limit: nat) returns (ok: bool, s: Search, counterexamples: nat)
    requires Valid(t)
    ensures ok <==> limit > 0 && TablesFit(limit, |t.nodes|)
    ensures ok ==> Tree(Allowed(t), |t.nodes|, s) && |s.orders| <= limit && Clean(t, s, counterexamples)
    ensures ok ==> forall k :: 0 <= k < |s.orders| ==> KeepsThreads(t, s.orders[k])
    ensures ok && counterexamples == 1 ==> NewestIsNearest(t, s)
    ensures ok && counterexamples == 0 && |s.orders| < limit ==> NothingToFind(t, s)
  {
    hide TablesFit, KeepsThreads;
    ghost var g, n := Allowed(t), |t.nodes|;
    s, counterexamples := Search([Identity(|t.nodes|)], [SIZE_MAX], [0], [0]), 0;
    ok := limit > 0;
    if ok {
      ok := SizesFit(limit, |t.nodes|);
    }
    if !ok {
      return;
    }
    var baseline := CollectPrefixKeys(t.nodes);
    BaselineIsNotNovel(t);
    StartQueue(g, n);
    var queueIndex: nat := 0;
    ghost var q: nat, upTo: nat := 0, 0;
    while queueIndex < |s.orders| && |s.orders| < limit && counterexamples == 0
      invariant |s.orders| <= limit && Tree(g, n, s) && Clean(t, s, counterexamples)
      invariant counterexamples == 0 && |s.orders| < limit ==> Queue(g, n, s, queueIndex, 0)
      invariant counterexamples == 1 ==> Queue(g, n, s, q, upTo) && q < |s.orders| - 1 && s.parents[|s.orders| - 1] == q
      decreases limit - queueIndex
    {
      s, counterexamples, upTo := ExpandEntry(t, limit, baseline, s, queueIndex);
      q := queueIndex;
      if counterexamples == 0 && |s.orders| < limit {
        NextEntry(g, n, s, queueIndex, upTo);
      }
      queueIndex := queueIndex + 1;
    }
    if counterexamples == 1 {
      CounterexampleResult(t, s, q, upTo);
    } else if |s.orders| < limit {
      DrainedResult(t, s, queueIndex);
    }
    RecordedKeepThreads(t, s);
  }
}
