/** The replay told from the records alone: which acquisitions are live, what
    ended the others, and what every record reports. Forks and failed execs have
    theorems of their own; all other records are covered here. */
module LifecycleHistory {
  import opened Events
  import opened LifecycleSpec
  import opened Wrappers

  // ---------- What a record does to its keys ----------

  predicate Plain(r: LogRecord) {
    match r.body
    case ResourceBody(_, cls, id, _) => cls.Some? && id.Some?
    case FdBody(_, _) => true
    case AllocBody(_, _, _) => true
    case ExecBody(_, _) => true
    case _ => false
  }

  predicate AllPlain(rs: seq<LogRecord>) {
    forall i :: 0 <= i < |rs| ==> Plain(rs[i])
  }

  function FdOf(r: LogRecord, fd: int): Key {
    Key(r.pid, "fd", FdText(fd))
  }

  function BlockOf(r: LogRecord, pointer: Option<string>): Option<Key> {
    if pointer.None? then None else Some(Key(r.pid, "allocation", pointer.value))
  }

  /** A resource of a class that the replay looks at. */
  function ResourceOf(r: LogRecord, cls: Option<string>, id: Option<string>): Option<Key> {
    if cls.None? || id.None? || cls.value == "blocking-operation" || cls.value == "pthread-terminal-attempt" then None
    else Some(Key(r.pid, cls.value, id.value))
  }

  /** A replacement or transfer names what takes the resource's place. */
  predicate Names(related: Option<string>) {
    related.Some? && related.value != ""
  }

  /** What a record acquires. */
  function Taken(r: LogRecord): Option<Key> {
    match r.body
    case FdBody(kind, fd) => if kind == Open then Some(FdOf(r, fd)) else None
    case AllocBody(kind, ptr, newPtr) =>
      BlockOf(r, if kind == Alloc then ptr else if kind == Realloc then newPtr else None)
    case ResourceBody(op, cls, id, related) =>
      if op == Acquire then ResourceOf(r, cls, id)
      else if (op == Replace || op == Transfer) && Names(related) then ResourceOf(r, cls, related)
      else None
    case _ => None
  }

  /** What a record releases; a descriptor closed by an exec included. */
  function Given(r: LogRecord): Option<Key> {
    match r.body
    case FdBody(kind, fd) => if kind == Close then Some(FdOf(r, fd)) else None
    case AllocBody(kind, ptr, newPtr) =>
      BlockOf(r, if kind == Free || (kind == Realloc && newPtr.Some?) then ptr else None)
    case ResourceBody(op, cls, id, related) =>
      if op == Release || ((op == Replace || op == Transfer) && Names(related)) then ResourceOf(r, cls, id) else None
    case ExecBody(fd, cloexec) => if cloexec then Some(FdOf(r, fd)) else None
    case _ => None
  }

  predicate Takes(r: LogRecord, key: Key) {
    Taken(r) == Some(key)
  }

  predicate Gives(r: LogRecord, key: Key) {
    Given(r) == Some(key)
  }

  function OriginOf(r: LogRecord): RecordKind {
    match r.body
    case FdBody(_, _) => FdRecord
    case AllocBody(_, _, _) => AllocRecord
    case ExecBody(_, _) => ExecRecord
    case _ => ResourceRecord
  }

  // ---------- The acquisitions of a key ----------

  function Fewer(places: seq<nat>): seq<nat> {
    if places == [] then [] else places[..|places| - 1]
  }

  /** The live acquisitions once record k has released and not yet acquired. */
  function LiveBetween(rs: seq<LogRecord>, k: nat, key: Key): seq<nat>
    requires k < |rs|
    decreases k, 1
  {
    if Gives(rs[k], key) then Fewer(Live(rs, k, key)) else Live(rs, k, key)
  }

  /** The acquisitions of the key before record k that are live, oldest first:
      a release ends the newest. */
  function Live(rs: seq<LogRecord>, k: nat, key: Key): seq<nat>
    requires k <= |rs|
    decreases k, 0
  {
    if k == 0 then [] else LiveBetween(rs, k - 1, key) + (if Takes(rs[k - 1], key) then [k - 1] else [])
  }

  /** The newest acquisition of the key before record k. */
  function Newest(rs: seq<LogRecord>, k: nat, key: Key): Option<nat>
    requires k <= |rs|
  {
    if k == 0 then None else if Takes(rs[k - 1], key) then Some(k - 1) else Newest(rs, k - 1, key)
  }

  /** The record before k that ended acquisition p, or -1. */
  function EndOf(rs: seq<LogRecord>, p: nat, k: nat): (e: int)
    requires p < |rs| && k <= |rs| && Taken(rs[p]).Some?
    ensures e >= 0 ==> p < e < k
  {
    if k <= p + 1 then -1
    else
      var key, before := Taken(rs[p]).value, EndOf(rs, p, k - 1);
      if before >= 0 then before
      else if p in Live(rs, k - 1, key) && p !in LiveBetween(rs, k - 1, key) then k - 1
      else -1
  }

  // ---------- What a record reports ----------

  /** The place an acquisition is told by: its end, if that is numbered. */
  function PlaceOf(rs: seq<LogRecord>, p: nat, k: nat): Prior
    requires p < |rs| && k <= |rs| && Taken(rs[p]).Some?
  {
    var e := EndOf(rs, p, k);
    var r := if e >= 0 && rs[e].sequence != 0 then rs[e] else rs[p];
    Prior(r.context, r.sequence, r.line, OrUnknown(r.functionName), OrUnknown(r.fileName))
  }

  /** The finding of record k about an acquisition, or about none. */
  function Told(rs: seq<LogRecord>, k: nat, kind: FindingKind, key: Key, about: Option<nat>): Finding
    requires k < |rs| && (about.Some? ==> about.value < k && Taken(rs[about.value]).Some?)
  {
    match about
    case None => Finding(kind, key, OriginOf(rs[k]), SiteOf(rs[k]), None, kind == ExecInherit)
    case Some(p) => Finding(kind, key, OriginOf(rs[p]), SiteOf(rs[k]), Some(PlaceOf(rs, p, k)), kind == ExecInherit)
  }

  lemma {:induction false} NewestTakes(rs: seq<LogRecord>, k: nat, key: Key)
    requires k <= |rs|
    ensures Newest(rs, k, key).Some? ==> Newest(rs, k, key).value < k && Takes(rs[Newest(rs, k, key).value], key)
    ensures forall p: nat :: p < k && Takes(rs[p], key) ==>
                               Newest(rs, k, key).Some? && p <= Newest(rs, k, key).value
  {
    if k > 0 {
      NewestTakes(rs, k - 1, key);
    }
  }

  ghost predicate Ascend(places: seq<nat>) {
    forall i, j :: 0 <= i < j < |places| ==> places[i] < places[j]
  }

  lemma {:induction false} LiveTakes(rs: seq<LogRecord>, k: nat, key: Key)
    requires k <= |rs|
    ensures forall p :: p in Live(rs, k, key) ==> p < k && Takes(rs[p], key)
    ensures Ascend(Live(rs, k, key))
  {
    if k > 0 {
      LiveTakes(rs, k - 1, key);
      FewerTakes(Live(rs, k - 1, key));
      AppendAscends(LiveBetween(rs, k - 1, key), k - 1);
    }
  }

  lemma {:induction false} FewerTakes(places: seq<nat>)
    requires Ascend(places)
    ensures Ascend(Fewer(places)) && forall p :: p in Fewer(places) <==> p in places && p != places[|places| - 1]
  {
    forall p | p in places && p != places[|places| - 1]
      ensures p in Fewer(places)
    {
      var i :| 0 <= i < |places| && places[i] == p;
      assert Fewer(places)[i] == p;
    }
  }

  lemma {:induction false} AppendAscends(places: seq<nat>, k: nat)
    requires Ascend(places) && forall p :: p in places ==> p < k
    ensures Ascend(places + [k])
  {
    forall i, j | 0 <= i < j < |places + [k]|
      ensures (places + [k])[i] < (places + [k])[j]
    {
      assert places[i] in places;
    }
  }

  lemma {:induction false} BetweenTakes(rs: seq<LogRecord>, k: nat, key: Key)
    requires k < |rs|
    ensures forall p :: p in LiveBetween(rs, k, key) ==> p < k && Takes(rs[p], key)
    ensures Ascend(LiveBetween(rs, k, key))
    ensures forall p :: p in LiveBetween(rs, k, key)
                        <==> p in Live(rs, k, key)
                             && !(Gives(rs[k], key) && p == Live(rs, k, key)[|Live(rs, k, key)| - 1])
  {
    LiveTakes(rs, k, key);
    FewerTakes(Live(rs, k, key));
  }

  function LastOf(places: seq<nat>): Option<nat> {
    if places == [] then None else Some(places[|places| - 1])
  }

  /** A release that finds nothing live is stray, or double if something was. */
  function Missing(rs: seq<LogRecord>, k: nat, key: Key): seq<Finding>
    requires k < |rs|
  {
    NewestTakes(rs, k, key);
    if Live(rs, k, key) != [] then []
    else [Told(rs, k, if Newest(rs, k, key).None? then StrayRelease else DoubleRelease, key, Newest(rs, k, key))]
  }

  /** An acquisition of what is live is a duplicate. */
  function Duplicate(rs: seq<LogRecord>, k: nat, key: Key): seq<Finding>
    requires k < |rs|
  {
    BetweenTakes(rs, k, key);
    var live := LiveBetween(rs, k, key);
    if live == [] then []
    else
      assert live[|live| - 1] in live;
      [Told(rs, k, DuplicateAcquire, key, LastOf(live))]
  }

  function Unless(rs: seq<LogRecord>, k: nat, key: Key, kind: FindingKind): seq<Finding>
    requires k < |rs|
  {
    NewestTakes(rs, k, key);
    if Live(rs, k, key) != [] then [] else [Told(rs, k, kind, key, Newest(rs, k, key))]
  }

  function Always(rs: seq<LogRecord>, k: nat, key: Key, kind: FindingKind): seq<Finding>
    requires k < |rs|
  {
    NewestTakes(rs, k, key);
    [Told(rs, k, kind, key, Newest(rs, k, key))]
  }

  function Kept(rs: seq<LogRecord>, k: nat, key: Key): seq<Finding>
    requires k < |rs|
  {
    LiveTakes(rs, k, key);
    var live := Live(rs, k, key);
    if live == [] then []
    else
      assert live[|live| - 1] in live;
      [Told(rs, k, ExecInherit, key, LastOf(live))]
  }

  /** What record k adds to the findings. */
  function Reports(rs: seq<LogRecord>, k: nat): seq<Finding>
    requires k < |rs|
  {
    var r := rs[k];
    match r.body
    case FdBody(kind, fd) => if kind == Open then Duplicate(rs, k, FdOf(r, fd)) else Missing(rs, k, FdOf(r, fd))
    case AllocBody(kind, ptr, newPtr) =>
      var block, result := BlockOf(r, ptr), BlockOf(r, newPtr);
      if kind == Realloc then
        (if block.None? then [] else Unless(rs, k, block.value, BadReplace))
        + (if result.None? then [] else Duplicate(rs, k, result.value))
      else if block.None? then []
      else if kind == Alloc then Duplicate(rs, k, block.value)
      else Missing(rs, k, block.value)
    case ResourceBody(op, cls, id, related) =>
      var key := ResourceOf(r, cls, id);
      if key.None? then []
      else if op == Acquire then Duplicate(rs, k, key.value)
      else if op == Use then Unless(rs, k, key.value, InvalidUse)
      else if op == Release || Names(related) then Missing(rs, k, key.value)
      else Always(rs, k, key.value, BadReplace)
    case ExecBody(fd, cloexec) => if cloexec then [] else Kept(rs, k, FdOf(r, fd))
    case _ => []
  }

  function AllReports(rs: seq<LogRecord>, k: nat): seq<Finding>
    requires k <= |rs|
  {
    if k == 0 then [] else AllReports(rs, k - 1) + Reports(rs, k - 1)
  }

  // ---------- The table ----------

  /** The number of acquisitions before record k. */
  function TakeCount(rs: seq<LogRecord>, k: nat): nat
    requires k <= |rs|
  {
    if k == 0 then 0 else TakeCount(rs, k - 1) + (if Taken(rs[k - 1]).Some? then 1 else 0)
  }

  /** The entry of acquisition p before record k. */
  function EntryOf(rs: seq<LogRecord>, p: nat, k: nat): Entry
    requires p < |rs| && k <= |rs| && Taken(rs[p]).Some?
  {
    var r, e := rs[p], EndOf(rs, p, k);
    Entry(Taken(r).value, OriginOf(r), if r.body.FdBody? then 0 else r.size, SiteOf(r),
          if e < 0 then None else Some(SiteOf(rs[e])), e < 0, e >= 0 && rs[e].body.ExecBody?)
  }

  /** The table of the acquisitions before record n, as they are before record k. */
  ghost predicate TableOf(rs: seq<LogRecord>, entries: seq<Entry>, n: nat, k: nat)
    requires n <= |rs| && k <= |rs|
  {
    |entries| == TakeCount(rs, n)
    && forall p: nat :: p < n && Taken(rs[p]).Some? ==>
                          TakeCount(rs, p) < |entries| && entries[TakeCount(rs, p)] == EntryOf(rs, p, k)
  }

  lemma {:induction false} CountMonotone(rs: seq<LogRecord>, p: nat, k: nat)
    requires p <= k <= |rs|
    ensures TakeCount(rs, p) <= TakeCount(rs, k)
    ensures p < k && Taken(rs[p]).Some? ==> TakeCount(rs, p) < TakeCount(rs, k)
    decreases k
  {
    if p < k {
      CountMonotone(rs, p, k - 1);
    }
  }

  /** The acquisition that made an entry. */
  function TakeIndex(rs: seq<LogRecord>, k: nat, x: nat): (p: nat)
    requires k <= |rs| && x < TakeCount(rs, k)
    ensures p < k && Taken(rs[p]).Some? && TakeCount(rs, p) == x
  {
    if TakeCount(rs, k - 1) > x then TakeIndex(rs, k - 1, x) else k - 1
  }

  /** An acquisition is live until something ends it. */
  lemma {:induction false} LiveUntilEnd(rs: seq<LogRecord>, p: nat, k: nat)
    requires p < k <= |rs| && Taken(rs[p]).Some?
    ensures p in Live(rs, k, Taken(rs[p]).value) <==> EndOf(rs, p, k) < 0
    decreases k
  {
    hide Taken, Takes, Gives;
    var key := Taken(rs[p]).value;
    LiveAfter(rs, p, k);
    if k > p + 1 {
      hide LiveBetween;
      LiveUntilEnd(rs, p, k - 1);
      BetweenIsLive(rs, k - 1, key, p);
    }
  }

  lemma {:induction false} LiveAfter(rs: seq<LogRecord>, p: nat, k: nat)
    requires p < k <= |rs| && Taken(rs[p]).Some?
    ensures k == p + 1 ==> p in Live(rs, k, Taken(rs[p]).value)
    ensures k > p + 1 ==> (p in Live(rs, k, Taken(rs[p]).value) <==> p in LiveBetween(rs, k - 1, Taken(rs[p]).value))
  {
    hide LiveBetween, Taken;
  }

  lemma {:induction false} BetweenIsLive(rs: seq<LogRecord>, k: nat, key: Key, p: nat)
    requires k < |rs|
    ensures p in LiveBetween(rs, k, key) ==> p in Live(rs, k, key)
  {
    hide Live, Gives;
  }

  /** So after the release of record k. */
  lemma {:induction false} LiveBetweenUntilEnd(rs: seq<LogRecord>, p: nat, k: nat)
    requires p < k < |rs| && Taken(rs[p]).Some?
    ensures p in LiveBetween(rs, k, Taken(rs[p]).value) <==> EndOf(rs, p, k + 1) < 0
  {
    LiveUntilEnd(rs, p, k + 1);
    var key := Taken(rs[p]).value;
    assert p in Live(rs, k + 1, key) <==> p in LiveBetween(rs, k, key);
  }

  lemma {:induction false} LatestIs(entries: seq<Entry>, key: Key, liveOnly: bool, x: nat)
    requires x < |entries| && entries[x].key == key && (liveOnly ==> entries[x].live)
    requires forall y :: x < y < |entries| ==> entries[y].key != key || (liveOnly && !entries[y].live)
    ensures FindLatest(entries, key, liveOnly) == x
  {
    if x < |entries| - 1 {
      LatestIs(entries[..|entries| - 1], key, liveOnly, x);
    }
  }

  lemma {:induction false} LatestIsNone(entries: seq<Entry>, key: Key, liveOnly: bool)
    requires forall y :: 0 <= y < |entries| ==> entries[y].key != key || (liveOnly && !entries[y].live)
    ensures FindLatest(entries, key, liveOnly) == -1
  {
    if entries != [] {
      LatestIsNone(entries[..|entries| - 1], key, liveOnly);
    }
  }

  /** What a search of the table finds. */
  function IndexOf(rs: seq<LogRecord>, p: Option<nat>): int
    requires p.Some? ==> p.value < |rs|
  {
    if p.None? then -1 else TakeCount(rs, p.value)
  }

  lemma {:induction false} EntryIs(rs: seq<LogRecord>, entries: seq<Entry>, n: nat, k: nat, y: nat) returns (p: nat)
    requires n <= |rs| && k <= |rs| && TableOf(rs, entries, n, k) && y < |entries|
    ensures p < n && Taken(rs[p]).Some? && TakeCount(rs, p) == y && entries[y] == EntryOf(rs, p, k)
  {
    p := TakeIndex(rs, n, y);
  }

  lemma {:induction false} LaterTake(rs: seq<LogRecord>, p: nat, q: nat)
    requires p < |rs| && q < |rs| && TakeCount(rs, p) < TakeCount(rs, q)
    ensures p < q
  {
    if q <= p {
      CountMonotone(rs, q, p);
    }
  }

  /** The search for a live entry finds the last of the live acquisitions. */
  lemma {:induction false} FindsLive(rs: seq<LogRecord>, entries: seq<Entry>, n: nat, k: nat, key: Key, live: seq<nat>)
    requires n <= |rs| && k <= |rs| && TableOf(rs, entries, n, k) && Ascend(live)
    requires forall p: nat :: p in live <==> p < n && Takes(rs[p], key) && EndOf(rs, p, k) < 0
    ensures live != [] ==> live[|live| - 1] < n
    ensures FindLatest(entries, key, true) == IndexOf(rs, LastOf(live))
  {
    hide EndOf, Taken, FindLatest, TableOf;
    assert live != [] ==> live[|live| - 1] in live;
    forall y: nat | y < |entries| && entries[y].key == key && entries[y].live
      ensures live != [] && y <= TakeCount(rs, live[|live| - 1])
    {
      var p := EntryIs(rs, entries, n, k, y);
      assert p in live;
      LastIsLargest(live, p);
      CountMonotone(rs, p, live[|live| - 1]);
    }
    if live == [] {
      LatestIsNone(entries, key, true);
    } else {
      var last := live[|live| - 1];
      assert last in live;
      AtTake(rs, entries, n, k, last);
      LatestIs(entries, key, true, TakeCount(rs, last));
    }
  }

  lemma {:induction false} AtTake(rs: seq<LogRecord>, entries: seq<Entry>, n: nat, k: nat, p: nat)
    requires n <= |rs| && k <= |rs| && TableOf(rs, entries, n, k) && p < n && Taken(rs[p]).Some?
    ensures TakeCount(rs, p) < |entries| && entries[TakeCount(rs, p)] == EntryOf(rs, p, k)
  {}

  lemma {:induction false} LastIsLargest(places: seq<nat>, p: nat)
    requires Ascend(places) && p in places
    ensures places != [] && p <= places[|places| - 1]
  {
    var i :| 0 <= i < |places| && places[i] == p;
  }

  /** The search for any entry finds the newest acquisition. */
  lemma {:induction false} FindsNewest(rs: seq<LogRecord>, entries: seq<Entry>, n: nat, k: nat, key: Key)
    requires n <= |rs| && k <= |rs| && TableOf(rs, entries, n, k)
    ensures Newest(rs, n, key).Some? ==> Newest(rs, n, key).value < n
    ensures FindLatest(entries, key, false) == IndexOf(rs, Newest(rs, n, key))
  {
    hide EndOf, Taken, FindLatest, TableOf;
    NewestTakes(rs, n, key);
    var newest := Newest(rs, n, key);
    forall y: nat | y < |entries| && entries[y].key == key
      ensures newest.Some? && y <= TakeCount(rs, newest.value)
    {
      var p := EntryIs(rs, entries, n, k, y);
      CountMonotone(rs, p, newest.value);
    }
    if newest.None? {
      LatestIsNone(entries, key, false);
    } else {
      AtTake(rs, entries, n, k, newest.value);
      LatestIs(entries, key, false, TakeCount(rs, newest.value));
    }
  }

  // ---------- One record ----------

  /** The table once record k has released. */
  function AfterGive(rs: seq<LogRecord>, entries: seq<Entry>, k: nat): (after: seq<Entry>)
    requires k < |rs|
    ensures |after| == |entries|
  {
    if Given(rs[k]).None? then entries
    else
      var x := FindLatest(entries, Given(rs[k]).value, true);
      if x < 0 then entries
      else entries[x := entries[x].(live := false, released := Some(SiteOf(rs[k])), pending := rs[k].body.ExecBody?)]
  }

  lemma {:induction false} LiveFound(rs: seq<LogRecord>, entries: seq<Entry>, k: nat, key: Key)
    requires k <= |rs| && TableOf(rs, entries, k, k)
    ensures Live(rs, k, key) != [] ==> Live(rs, k, key)[|Live(rs, k, key)| - 1] < k
    ensures FindLatest(entries, key, true) == IndexOf(rs, LastOf(Live(rs, k, key)))
  {
    hide EndOf, Taken, FindLatest, TableOf, Live;
    LiveTakes(rs, k, key);
    forall p: nat
      ensures p in Live(rs, k, key) <==> p < k && Takes(rs[p], key) && EndOf(rs, p, k) < 0
    {
      if p < k && Takes(rs[p], key) {
        LiveUntilEnd(rs, p, k);
      }
    }
    FindsLive(rs, entries, k, k, key, Live(rs, k, key));
  }

  lemma {:induction false} LiveBetweenFound(rs: seq<LogRecord>, entries: seq<Entry>, k: nat, key: Key)
    requires k < |rs| && TableOf(rs, entries, k, k + 1)
    ensures LiveBetween(rs, k, key) != [] ==> LiveBetween(rs, k, key)[|LiveBetween(rs, k, key)| - 1] < k
    ensures FindLatest(entries, key, true) == IndexOf(rs, LastOf(LiveBetween(rs, k, key)))
  {
    hide EndOf, Taken, FindLatest, TableOf, LiveBetween, Live;
    BetweenTakes(rs, k, key);
    forall p: nat
      ensures p in LiveBetween(rs, k, key) <==> p < k && Takes(rs[p], key) && EndOf(rs, p, k + 1) < 0
    {
      if p < k && Takes(rs[p], key) {
        LiveBetweenUntilEnd(rs, p, k);
      }
    }
    FindsLive(rs, entries, k, k + 1, key, LiveBetween(rs, k, key));
  }

  /** Record k ends acquisition p exactly when it releases p's key and p is the
      newest live one. */
  lemma {:induction false} EndNext(rs: seq<LogRecord>, p: nat, k: nat)
    requires p < k < |rs| && Taken(rs[p]).Some?
    ensures var live := Live(rs, k, Taken(rs[p]).value);
            EndOf(rs, p, k + 1)
            == if EndOf(rs, p, k) >= 0 then EndOf(rs, p, k)
               else if Gives(rs[k], Taken(rs[p]).value) && live != [] && p == live[|live| - 1] then k else -1
  {
    LiveUntilEnd(rs, p, k);
    BetweenTakes(rs, k, Taken(rs[p]).value);
  }

  lemma {:induction false} SameCount(rs: seq<LogRecord>, p: nat, q: nat)
    requires p < |rs| && q < |rs| && Taken(rs[p]).Some? && Taken(rs[q]).Some? && TakeCount(rs, p) == TakeCount(rs, q)
    ensures p == q
  {
    if p < q {
      CountMonotone(rs, p, q);
    } else if q < p {
      CountMonotone(rs, q, p);
    }
  }

  lemma {:induction false} GiveStep(rs: seq<LogRecord>, entries: seq<Entry>, k: nat)
    requires k < |rs| && TableOf(rs, entries, k, k)
    ensures TableOf(rs, AfterGive(rs, entries, k), k, k + 1)
  {
    hide EndOf, Taken, Given, FindLatest, Live, LiveBetween, TakeCount;
    var after := AfterGive(rs, entries, k);
    forall p: nat | p < k && Taken(rs[p]).Some?
      ensures TakeCount(rs, p) < |after| && after[TakeCount(rs, p)] == EntryOf(rs, p, k + 1)
    {
      EndNext(rs, p, k);
      LiveTakes(rs, k, Taken(rs[p]).value);
      if Given(rs[k]).Some? {
        var key := Given(rs[k]).value;
        LiveFound(rs, entries, k, key);
        LiveTakes(rs, k, key);
        if Live(rs, k, key) != [] {
          var last := Live(rs, k, key)[|Live(rs, k, key)| - 1];
          assert last in Live(rs, k, key);
          if TakeCount(rs, p) == TakeCount(rs, last) {
            SameCount(rs, p, last);
            LiveUntilEnd(rs, p, k);
          }
        }
      }
    }
  }

  lemma {:induction false} TakeStep(rs: seq<LogRecord>, entries: seq<Entry>, k: nat)
    requires k < |rs| && TableOf(rs, entries, k, k + 1)
    ensures TableOf(rs, entries + (if Taken(rs[k]).Some? then [EntryOf(rs, k, k + 1)] else []), k + 1, k + 1)
  {
    hide EndOf, Taken;
  }

  /** A finding about an entry is told by its acquisition. */
  lemma {:induction false} FindingIsTold(rs: seq<LogRecord>, m: Model, k: nat, kind: FindingKind, key: Key,
                                         about: Option<nat>)
    requires k < |rs| && (about.Some? ==> about.value < k && Taken(rs[about.value]).Some?)
    requires about.Some? ==> TakeCount(rs, about.value) < |m.entries|
                             && m.entries[TakeCount(rs, about.value)] == EntryOf(rs, about.value, k)
    ensures NewFinding(m, kind, key, OriginOf(rs[k]), SiteOf(rs[k]), IndexOf(rs, about))
            == Told(rs, k, kind, key, about)
  {
    hide EndOf, Taken, TakeCount;
  }

  lemma {:induction false} NewestFinding(rs: seq<LogRecord>, m: Model, k: nat, kind: FindingKind, key: Key)
    requires k < |rs| && TableOf(rs, m.entries, k, k)
    ensures Newest(rs, k, key).Some? ==>
              Newest(rs, k, key).value < k && Taken(rs[Newest(rs, k, key).value]).Some?
    ensures FindLatest(m.entries, key, false) == IndexOf(rs, Newest(rs, k, key))
    ensures NewFinding(m, kind, key, OriginOf(rs[k]), SiteOf(rs[k]), FindLatest(m.entries, key, false))
            == Told(rs, k, kind, key, Newest(rs, k, key))
  {
    hide EndOf, Taken, FindLatest, TakeCount, Told, NewFinding;
    FindsNewest(rs, m.entries, k, k, key);
    NewestTakes(rs, k, key);
    FindingIsTold(rs, m, k, kind, key, Newest(rs, k, key));
  }

  lemma {:induction false} LiveIsSettled(rs: seq<LogRecord>, entries: seq<Entry>, k: nat)
    requires k <= |rs| && TableOf(rs, entries, k, k)
    ensures forall y: nat :: y < |entries| && entries[y].live ==> !entries[y].pending
  {
    hide EndOf, Taken, TableOf;
    forall y: nat | y < |entries| && entries[y].live
      ensures !entries[y].pending
    {
      var p := EntryIs(rs, entries, k, k, y);
    }
  }

  lemma {:induction false} ReleaseIs(rs: seq<LogRecord>, m: Model, k: nat, key: Key)
    requires k < |rs| && TableOf(rs, m.entries, k, k) && Gives(rs[k], key) && !rs[k].body.ExecBody?
    ensures ReleaseEntry(m, key, OriginOf(rs[k]), SiteOf(rs[k]))
            == Model(AfterGive(rs, m.entries, k), m.findings + Missing(rs, k, key))
  {
    hide EndOf, Taken, FindLatest, TakeCount, Told, NewFinding, Given, Live, Newest, TableOf, SiteOf;
    LiveFound(rs, m.entries, k, key);
    LiveIsSettled(rs, m.entries, k);
    NewestFinding(rs, m, k, StrayRelease, key);
    NewestFinding(rs, m, k, DoubleRelease, key);
    assert m.findings + [] == m.findings;
  }

  lemma {:induction false} AcquireIs(rs: seq<LogRecord>, m: Model, k: nat, key: Key)
    requires k < |rs| && TableOf(rs, m.entries, k, k + 1) && Takes(rs[k], key)
    ensures AcquireEntry(m, key, OriginOf(rs[k]), if rs[k].body.FdBody? then 0 else rs[k].size, SiteOf(rs[k]))
            == Model(m.entries + [EntryOf(rs, k, k + 1)], m.findings + Duplicate(rs, k, key))
  {
    hide EndOf, Taken, FindLatest, TakeCount, Told, NewFinding, Given, LiveBetween, SiteOf;
    LiveBetweenFound(rs, m.entries, k, key);
    BetweenTakes(rs, k, key);
    NotEndedYet(rs, k);
    var live := LiveBetween(rs, k, key);
    if live == [] {
      assert m.findings + [] == m.findings;
    } else {
      var last := live[|live| - 1];
      assert last in live;
      LiveBetweenUntilEnd(rs, last, k);
      EndNext(rs, last, k);
      FindingIsTold(rs, m, k, DuplicateAcquire, key, Some(last));
    }
  }

  lemma {:induction false} NotEndedYet(rs: seq<LogRecord>, k: nat)
    requires k < |rs| && Taken(rs[k]).Some?
    ensures EndOf(rs, k, k + 1) == -1
  {}

  lemma {:induction false} UnlessIs(rs: seq<LogRecord>, m: Model, k: nat, key: Key, kind: FindingKind)
    requires k < |rs| && TableOf(rs, m.entries, k, k)
    ensures (if FindLatest(m.entries, key, true) >= 0 then m
             else AddFinding(m, kind, key, OriginOf(rs[k]), SiteOf(rs[k]), FindLatest(m.entries, key, false)))
            == m.(findings := m.findings + Unless(rs, k, key, kind))
  {
    hide EndOf, Taken, FindLatest, TakeCount, Told, NewFinding, Given, Live, Newest, TableOf, SiteOf;
    LiveFound(rs, m.entries, k, key);
    NewestFinding(rs, m, k, kind, key);
    assert m.findings + [] == m.findings;
  }

  lemma {:induction false} AlwaysIs(rs: seq<LogRecord>, m: Model, k: nat, key: Key, kind: FindingKind)
    requires k < |rs| && TableOf(rs, m.entries, k, k)
    ensures AddFinding(m, kind, key, OriginOf(rs[k]), SiteOf(rs[k]), FindLatest(m.entries, key, false))
            == m.(findings := m.findings + Always(rs, k, key, kind))
  {
    hide EndOf, Taken, FindLatest, TakeCount, Told, NewFinding, Given, Live, Newest, TableOf, SiteOf;
    NewestFinding(rs, m, k, kind, key);
  }

  /** The model after record k. */
  function Next(rs: seq<LogRecord>, m: Model, k: nat): Model
    requires k < |rs|
  {
    Model(AfterGive(rs, m.entries, k) + (if Taken(rs[k]).Some? then [EntryOf(rs, k, k + 1)] else []),
          m.findings + Reports(rs, k))
  }

  lemma {:induction false} FdIs(rs: seq<LogRecord>, m: Model, k: nat)
    requires k < |rs| && TableOf(rs, m.entries, k, k) && rs[k].body.FdBody?
    ensures Ingest(m, rs[k]) == Next(rs, m, k)
  {
    hide EndOf, FindLatest, TakeCount, TableOf, SiteOf, FdText, Duplicate, Missing, EntryOf, AcquireEntry, ReleaseEntry;
    var key := FdOf(rs[k], rs[k].body.fd);
    assert |key.cls| == 2;
    if rs[k].body.fdKind == Open {
      GiveStep(rs, m.entries, k);
      AcquireIs(rs, m, k, key);
    } else {
      ReleaseIs(rs, m, k, key);
      assert AfterGive(rs, m.entries, k) + [] == AfterGive(rs, m.entries, k);
    }
  }

  lemma {:induction false} ExecIs(rs: seq<LogRecord>, m: Model, k: nat)
    requires k < |rs| && TableOf(rs, m.entries, k, k) && rs[k].body.ExecBody?
    ensures Ingest(m, rs[k]) == Next(rs, m, k)
  {
    hide EndOf, FindLatest, TakeCount, TableOf, SiteOf, FdText, Told, NewFinding, EntryOf;
    var key := FdOf(rs[k], rs[k].body.execFd);
    LiveFound(rs, m.entries, k, key);
    assert AfterGive(rs, m.entries, k) + [] == AfterGive(rs, m.entries, k);
    assert m.findings + [] == m.findings;
    LiveTakes(rs, k, key);
    if Live(rs, k, key) != [] {
      var last := Live(rs, k, key)[|Live(rs, k, key)| - 1];
      assert last in Live(rs, k, key);
      AtTake(rs, m.entries, k, k, last);
      FindingIsTold(rs, m, k, ExecInherit, key, Some(last));
    }
  }

  lemma {:induction false} AcquireAlone(rs: seq<LogRecord>, m: Model, k: nat, key: Key)
    requires k < |rs| && TableOf(rs, m.entries, k, k) && Takes(rs[k], key) && Given(rs[k]).None?
    ensures AcquireEntry(m, key, OriginOf(rs[k]), if rs[k].body.FdBody? then 0 else rs[k].size, SiteOf(rs[k]))
            == Model(AfterGive(rs, m.entries, k) + [EntryOf(rs, k, k + 1)], m.findings + Duplicate(rs, k, key))
  {
    hide EndOf, Taken, FindLatest, TableOf, SiteOf, Duplicate, EntryOf, AcquireEntry;
    GiveStep(rs, m.entries, k);
    AcquireIs(rs, m, k, key);
  }

  lemma {:induction false} MoveIs(rs: seq<LogRecord>, m: Model, k: nat, key: Key, result: Key)
    requires k < |rs| && TableOf(rs, m.entries, k, k) && Gives(rs[k], key) && Takes(rs[k], result)
    requires rs[k].body.AllocBody? && rs[k].body.allocKind == Realloc
    ensures MoveBlock(m, key, result, rs[k].size, SiteOf(rs[k]))
            == Model(AfterGive(rs, m.entries, k) + [EntryOf(rs, k, k + 1)],
                     m.findings + (Unless(rs, k, key, BadReplace) + Duplicate(rs, k, result)))
  {
    hide EndOf, Taken, Given, FindLatest, TableOf, SiteOf, Duplicate, Unless, EntryOf, AcquireEntry, ReleaseEntry, Live;
    var left := LeaveBlock(m, key, SiteOf(rs[k]));
    assert left == Model(AfterGive(rs, m.entries, k), m.findings + Unless(rs, k, key, BadReplace)) by {
      LeaveIs(rs, m, k, key);
    }
    GiveStep(rs, m.entries, k);
    AcquireIs(rs, left, k, result);
    assert m.findings + Unless(rs, k, key, BadReplace) + Duplicate(rs, k, result)
           == m.findings + (Unless(rs, k, key, BadReplace) + Duplicate(rs, k, result));
  }

  lemma {:induction false} LeaveIs(rs: seq<LogRecord>, m: Model, k: nat, key: Key)
    requires k < |rs| && TableOf(rs, m.entries, k, k) && Gives(rs[k], key) && rs[k].body.AllocBody?
    ensures LeaveBlock(m, key, SiteOf(rs[k]))
            == Model(AfterGive(rs, m.entries, k), m.findings + Unless(rs, k, key, BadReplace))
  {
    hide EndOf, Taken, Given, FindLatest, TableOf, SiteOf, Told, Newest, Live;
    ReleaseIs(rs, m, k, key);
    UnlessIs(rs, m, k, key, BadReplace);
    LiveFound(rs, m.entries, k, key);
    assert m.findings + [] == m.findings;
  }

  lemma {:induction false} AllocIs(rs: seq<LogRecord>, m: Model, k: nat)
    requires k < |rs| && TableOf(rs, m.entries, k, k) && rs[k].body.AllocBody?
    ensures Ingest(m, rs[k]) == Next(rs, m, k)
  {
    hide EndOf, FindLatest, TakeCount, TableOf, SiteOf, Duplicate, Missing, Unless, EntryOf, AcquireEntry, ReleaseEntry,
         MoveBlock;
    var r := rs[k];
    var block, result := BlockOf(r, r.body.ptr), BlockOf(r, r.body.newPtr);
    assert AfterGive(rs, m.entries, k) + [] == AfterGive(rs, m.entries, k);
    assert m.findings + [] == m.findings;
    if r.body.allocKind != Realloc {
      if block.Some? && r.body.allocKind == Alloc {
        AcquireAlone(rs, m, k, block.value);
      } else if block.Some? {
        ReleaseIs(rs, m, k, block.value);
      }
    } else if block.None? {
      if result.Some? {
        AcquireAlone(rs, m, k, result.value);
        assert [] + Duplicate(rs, k, result.value) == Duplicate(rs, k, result.value);
      }
    } else if result.Some? {
      MoveIs(rs, m, k, block.value, result.value);
    } else {
      UnlessIs(rs, m, k, block.value, BadReplace);
      assert Unless(rs, k, block.value, BadReplace) + [] == Unless(rs, k, block.value, BadReplace);
    }
  }

  lemma {:induction false} ReplaceIs(rs: seq<LogRecord>, m: Model, k: nat, key: Key, related: Option<string>)
    requires k < |rs| && TableOf(rs, m.entries, k, k) && rs[k].body.ResourceBody? && Names(related)
    requires Gives(rs[k], key) && Takes(rs[k], key.(id := related.value))
    ensures ReplaceEntry(m, key, related, ResourceRecord, rs[k].size, SiteOf(rs[k]))
            == Model(AfterGive(rs, m.entries, k) + [EntryOf(rs, k, k + 1)], m.findings + Missing(rs, k, key))
  {
    hide EndOf, FindLatest, TableOf, SiteOf, Missing, ReleaseEntry;
    ReleaseIs(rs, m, k, key);
    NotEndedYet(rs, k);
  }

  lemma {:induction false} ResourceIs(rs: seq<LogRecord>, m: Model, k: nat)
    requires k < |rs| && TableOf(rs, m.entries, k, k) && rs[k].body.ResourceBody? && Plain(rs[k])
    ensures Ingest(m, rs[k]) == Next(rs, m, k)
  {
    hide EndOf, FindLatest, TakeCount, TableOf, SiteOf, Duplicate, Missing, Unless, Always, EntryOf, AcquireEntry,
         ReleaseEntry, ReplaceEntry, UseEntry;
    var r := rs[k];
    var found := ResourceOf(r, r.body.cls, r.body.id);
    assert AfterGive(rs, m.entries, k) + [] == AfterGive(rs, m.entries, k);
    assert m.findings + [] == m.findings;
    if found.Some? {
      var key := found.value;
      if r.body.op == Acquire {
        AcquireAlone(rs, m, k, key);
      } else if r.body.op == Use {
        assert UseEntry(m, key, ResourceRecord, SiteOf(r))
               == m.(findings := m.findings + Unless(rs, k, key, InvalidUse))
        by { UseIs(rs, m, k, key); }
      } else if r.body.op == Release {
        ReleaseIs(rs, m, k, key);
      } else if Names(r.body.related) {
        ReplaceIs(rs, m, k, key, r.body.related);
      } else {
        assert ReplaceEntry(m, key, r.body.related, ResourceRecord, r.size, SiteOf(r))
               == m.(findings := m.findings + Always(rs, k, key, BadReplace))
        by { BadReplaceIs(rs, m, k, key, r.body.related); }
      }
    }
  }

  lemma {:induction false} UseIs(rs: seq<LogRecord>, m: Model, k: nat, key: Key)
    requires k < |rs| && TableOf(rs, m.entries, k, k) && rs[k].body.ResourceBody?
    ensures UseEntry(m, key, ResourceRecord, SiteOf(rs[k]))
            == m.(findings := m.findings + Unless(rs, k, key, InvalidUse))
  {
    hide FindLatest, TableOf, Unless, SiteOf, NewFinding;
    UnlessIs(rs, m, k, key, InvalidUse);
  }

  lemma {:induction false} BadReplaceIs(rs: seq<LogRecord>, m: Model, k: nat, key: Key, related: Option<string>)
    requires k < |rs| && TableOf(rs, m.entries, k, k) && rs[k].body.ResourceBody? && !Names(related)
    ensures ReplaceEntry(m, key, related, ResourceRecord, rs[k].size, SiteOf(rs[k]))
            == m.(findings := m.findings + Always(rs, k, key, BadReplace))
  {
    hide FindLatest, TableOf, Always, SiteOf, NewFinding;
    AlwaysIs(rs, m, k, key, BadReplace);
  }

  // ---------- The whole replay ----------

  lemma {:induction false} PlainWellFormed(rs: seq<LogRecord>, k: nat)
    requires AllPlain(rs) && k <= |rs|
    ensures AllWellFormed(rs[..k])
  {}

  function At(rs: seq<LogRecord>, k: nat): Model
    requires AllPlain(rs) && k <= |rs|
  {
    PlainWellFormed(rs, k);
    Replay(EMPTY, rs[..k])
  }

  lemma {:induction false} NothingYet(rs: seq<LogRecord>)
    requires AllPlain(rs)
    ensures At(rs, 0) == EMPTY
  {
    assert rs[..0] == [];
  }

  lemma {:induction false} AtIngests(rs: seq<LogRecord>, k: nat)
    requires AllPlain(rs) && k < |rs|
    ensures At(rs, k + 1) == Ingest(At(rs, k), rs[k])
  {
    hide Ingest;
    PlainWellFormed(rs, k);
    PlainWellFormed(rs, k + 1);
    assert rs[..k + 1][..k] == rs[..k];
  }

  lemma {:induction false} IngestIs(rs: seq<LogRecord>, m: Model, k: nat)
    requires AllPlain(rs) && k < |rs| && TableOf(rs, m.entries, k, k)
    ensures Ingest(m, rs[k]) == Next(rs, m, k)
  {
    hide Ingest, Next, TableOf;
    match rs[k].body {
      case ResourceBody(_, _, _, _) => ResourceIs(rs, m, k);
      case FdBody(_, _) => FdIs(rs, m, k);
      case AllocBody(_, _, _) => AllocIs(rs, m, k);
      case ExecBody(_, _) => ExecIs(rs, m, k);
      case _ => assert false;
    }
  }

  /** After every prefix the entries are the acquisitions in order, each with
      what ended it, and the findings are what the records reported, in order. */
  lemma {:induction false} ReplayIsHistory(rs: seq<LogRecord>, k: nat)
    requires AllPlain(rs) && k <= |rs|
    ensures TableOf(rs, At(rs, k).entries, k, k)
    ensures At(rs, k).findings == AllReports(rs, k)
  {
    hide At, Ingest, TableOf, AfterGive, EntryOf, Reports, Taken;
    if k == 0 {
      NothingYet(rs);
      assert TableOf(rs, [], 0, 0) by { NoTable(rs); }
    } else {
      ReplayIsHistory(rs, k - 1);
      AtIngests(rs, k - 1);
      IngestIs(rs, At(rs, k - 1), k - 1);
      GiveStep(rs, At(rs, k - 1).entries, k - 1);
      TakeStep(rs, AfterGive(rs, At(rs, k - 1).entries, k - 1), k - 1);
    }
  }

  lemma {:induction false} NoTable(rs: seq<LogRecord>)
    ensures TableOf(rs, [], 0, 0)
  {}
}
