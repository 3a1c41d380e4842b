/** A child's descriptor closes and the parent's fork record commute: closes
    replayed before the fork record are repaired by reconciliation. */
module LifecycleFork {
  import opened Events
  import opened Wrappers
  import opened LifecycleSpec

  // ---------- Models equal up to the order of unrelated findings ----------

  function ByKey(findings: seq<Finding>, key: Key): seq<Finding> {
    if findings == [] then []
    else
      var last := findings[|findings| - 1];
      ByKey(findings[..|findings| - 1], key) + (if last.key == key then [last] else [])
  }

  /** The same entries, and for every key the same findings in the same order. */
  ghost predicate Alike(a: Model, b: Model) {
    a.entries == b.entries && forall key :: ByKey(a.findings, key) == ByKey(b.findings, key)
  }

  lemma {:induction false} ByKeyCounts(findings: seq<Finding>, f: Finding)
    ensures multiset(findings)[f] == multiset(ByKey(findings, f.key))[f]
  {
    if findings != [] {
      var n := |findings| - 1;
      ByKeyCounts(findings[..n], f);
      assert findings == findings[..n] + [findings[n]];
    }
  }

  /** Alike models have the same multiset of findings. */
  lemma {:induction false} AlikeSameFindings(a: Model, b: Model)
    requires Alike(a, b)
    ensures multiset(a.findings) == multiset(b.findings)
  {
    forall f
      ensures multiset(a.findings)[f] == multiset(b.findings)[f]
    {
      ByKeyCounts(a.findings, f);
      ByKeyCounts(b.findings, f);
    }
  }

  lemma {:induction false} ByKeyConcat(a: seq<Finding>, b: seq<Finding>, key: Key)
    ensures ByKey(a + b, key) == ByKey(a, key) + ByKey(b, key)
  {
    if b == [] {
      assert a + b == a && ByKey(a, key) + [] == ByKey(a, key);
    } else {
      var n := |b| - 1;
      ByKeyConcat(a, b[..n], key);
      assert (a + b)[..|a| + n] == a + b[..n];
    }
  }

  lemma {:induction false} AlikeTrans(a: Model, b: Model, c: Model)
    requires Alike(a, b) && Alike(b, c)
    ensures Alike(a, c)
  {}

  // ---------- Selections and the order ----------

  lemma {:induction false} StraysByKey(findings: seq<Finding>, key: Key)
    ensures Strays(findings, key) == Strays(ByKey(findings, key), key)
    ensures Rest(ByKey(findings, key), key) == ByKey(Rest(findings, key), key)
  {
    if findings != [] {
      var n := |findings| - 1;
      var f, init := findings[n], findings[..n];
      StraysByKey(init, key);
      var part, rest := ByKey(init, key), Rest(init, key);
      assert (part + [f])[..|part|] == part && part + [] == part;
      assert (rest + [f])[..|rest|] == rest && rest + [] == rest;
      assert Strays(init, key) + [] == Strays(init, key);
      assert ByKey(rest, key) + [] == ByKey(rest, key) && Rest(part, key) + [] == Rest(part, key);
    }
  }

  lemma {:induction false} RestOtherKey(findings: seq<Finding>, key: Key, other: Key)
    requires key != other
    ensures ByKey(Rest(findings, key), other) == ByKey(findings, other)
  {
    if findings != [] {
      var n := |findings| - 1;
      RestOtherKey(findings[..n], key, other);
      var rest := Rest(findings[..n], key);
      assert (rest + [findings[n]])[..|rest|] == rest && rest + [] == rest;
      assert ByKey(findings[..n], other) + [] == ByKey(findings[..n], other);
    }
  }

  lemma {:induction false} RestAlike(a: Model, b: Model, key: Key)
    requires Alike(a, b)
    ensures Strays(a.findings, key) == Strays(b.findings, key)
    ensures Alike(a.(findings := Rest(a.findings, key)), b.(findings := Rest(b.findings, key)))
  {
    StraysByKey(a.findings, key);
    StraysByKey(b.findings, key);
    forall other
      ensures ByKey(Rest(a.findings, key), other) == ByKey(Rest(b.findings, key), other)
    {
      if other != key {
        RestOtherKey(a.findings, key, other);
        RestOtherKey(b.findings, key, other);
      }
    }
  }

  // ---------- Steps respect the order ----------

  lemma {:induction false} ReleaseAlike(a: Model, b: Model, key: Key, origin: RecordKind, site: Site)
    requires Alike(a, b)
    ensures Alike(ReleaseEntry(a, key, origin, site), ReleaseEntry(b, key, origin, site))
  {
    var live, any := FindLatest(a.entries, key, true), FindLatest(a.entries, key, false);
    if live < 0 {
      var f := NewFinding(a, if any < 0 then StrayRelease else DoubleRelease, key, origin, site, any);
      forall k
        ensures ByKey(a.findings + [f], k) == ByKey(b.findings + [f], k)
      {
        ByKeyConcat(a.findings, [f], k);
        ByKeyConcat(b.findings, [f], k);
      }
    }
  }

  lemma {:induction false} ReleaseAllAlike(a: Model, b: Model, strays: seq<Finding>)
    requires Alike(a, b)
    ensures Alike(ReleaseAll(a, strays), ReleaseAll(b, strays))
  {
    if strays != [] {
      var last, init := strays[|strays| - 1], strays[..|strays| - 1];
      ReleaseAllAlike(a, b, init);
      ReleaseAlike(ReleaseAll(a, init), ReleaseAll(b, init), last.key, last.origin, last.site);
    }
  }

  lemma {:induction false} ReconcileAlike(a: Model, b: Model, key: Key)
    requires Alike(a, b)
    ensures Alike(Reconcile(a, key), Reconcile(b, key))
  {
    RestAlike(a, b, key);
    ReleaseAllAlike(a.(findings := Rest(a.findings, key)), b.(findings := Rest(b.findings, key)),
                    Strays(a.findings, key));
  }

  lemma {:induction false} ForkStepAlike(a: Model, b: Model, i: nat, parent: int, child: int, site: Site)
    requires Alike(a, b) && i < |a.entries|
    ensures Alike(ForkStep(a, i, parent, child, site), ForkStep(b, i, parent, child, site))
  {
    if Inherits(a, i, parent, child) {
      var e := a.entries[i];
      var key := e.key.(pid := child);
      ReconcileAlike(AddEntry(a, key, e.origin, e.size, site), AddEntry(b, key, e.origin, e.size, site), key);
    }
  }

  // ---------- Releases of different keys ----------

  lemma {:induction false} FindLatestUpdated(entries: seq<Entry>, i: nat, e: Entry, key: Key, liveOnly: bool)
    requires i < |entries| && e.key == entries[i].key && (e.key != key || (!liveOnly && e.key == entries[i].key))
    ensures FindLatest(entries[i := e], key, liveOnly) == FindLatest(entries, key, liveOnly)
  {
    var n := |entries| - 1;
    if i < n {
      FindLatestUpdated(entries[..n], i, e, key, liveOnly);
      assert entries[i := e][..n] == entries[..n][i := e];
    } else {
      assert entries[i := e][..n] == entries[..n];
    }
  }

  lemma {:induction false} FindLatestAppended(entries: seq<Entry>, e: Entry, key: Key, liveOnly: bool)
    requires e.key != key
    ensures FindLatest(entries + [e], key, liveOnly) == FindLatest(entries, key, liveOnly)
  {
    assert (entries + [e])[..|entries|] == entries;
  }

  /** A release leaves searches for other keys alone. */
  lemma {:induction false} FindLatestAfterRelease(m: Model, key: Key, origin: RecordKind, site: Site, other: Key,
                                                  liveOnly: bool)
    requires other != key
    ensures FindLatest(ReleaseEntry(m, key, origin, site).entries, other, liveOnly)
            == FindLatest(m.entries, other, liveOnly)
  {
    var live := FindLatest(m.entries, key, true);
    if live >= 0 {
      FindLatestUpdated(m.entries, live, m.entries[live].(live := false, released := Some(site)), other, liveOnly);
    }
  }

  /** What a release adds: nothing, or one finding of its key. */
  function Addition(m: Model, key: Key, origin: RecordKind, site: Site): seq<Finding> {
    if FindLatest(m.entries, key, true) >= 0 then []
    else
      var any := FindLatest(m.entries, key, false);
      [NewFinding(m, if any < 0 then StrayRelease else DoubleRelease, key, origin, site, any)]
  }

  lemma {:induction false} ReleaseAdds(m: Model, key: Key, origin: RecordKind, site: Site)
    ensures ReleaseEntry(m, key, origin, site).findings == m.findings + Addition(m, key, origin, site)
    ensures forall f :: f in Addition(m, key, origin, site) ==> f.key == key
  {
    assert m.findings + [] == m.findings;
  }

  lemma {:induction false} NoneOfKey(findings: seq<Finding>, key: Key)
    requires forall f :: f in findings ==> f.key != key
    ensures ByKey(findings, key) == []
  {
    if findings != [] {
      assert findings[|findings| - 1] in findings;
      NoneOfKey(findings[..|findings| - 1], key);
    }
  }

  /** Additions of different keys may change places. */
  lemma {:induction false} SwapAdditions(findings: seq<Finding>, x: seq<Finding>, y: seq<Finding>, k: Key, l: Key,
                                         key: Key)
    requires k != l && (forall f :: f in x ==> f.key == k) && forall f :: f in y ==> f.key == l
    ensures ByKey(findings + x + y, key) == ByKey(findings + y + x, key)
  {
    ByKeyConcat(findings + x, y, key);
    ByKeyConcat(findings, x, key);
    ByKeyConcat(findings + y, x, key);
    ByKeyConcat(findings, y, key);
    if key != k {
      NoneOfKey(x, key);
    } else {
      NoneOfKey(y, key);
    }
    assert ByKey(findings, key) + [] == ByKey(findings, key);
  }

  /** A release of another key before it does not change what a release adds. */
  lemma {:induction false} SameAddition(m: Model, k: Key, l: Key, o1: RecordKind, s1: Site, o2: RecordKind, s2: Site)
    requires k != l
    ensures Addition(ReleaseEntry(m, k, o1, s1), l, o2, s2) == Addition(m, l, o2, s2)
  {
    FindLatestAfterRelease(m, k, o1, s1, l, true);
    FindLatestAfterRelease(m, k, o1, s1, l, false);
  }

  lemma {:induction false} EntriesCommute(m: Model, k: Key, l: Key, o1: RecordKind, s1: Site, o2: RecordKind, s2: Site)
    requires k != l
    ensures ReleaseEntry(ReleaseEntry(m, k, o1, s1), l, o2, s2).entries
            == ReleaseEntry(ReleaseEntry(m, l, o2, s2), k, o1, s1).entries
  {
    FindLatestAfterRelease(m, k, o1, s1, l, true);
    FindLatestAfterRelease(m, l, o2, s2, k, true);
    var mk, ml := ReleaseEntry(m, k, o1, s1), ReleaseEntry(m, l, o2, s2);
    ReleasedEntries(m, k, o1, s1);
    ReleasedEntries(m, l, o2, s2);
    ReleasedEntries(mk, l, o2, s2);
    ReleasedEntries(ml, k, o1, s1);
  }

  function MarkReleased(entries: seq<Entry>, index: int, site: Site): seq<Entry>
    requires index < |entries|
  {
    if index < 0 then entries else entries[index := entries[index].(live := false, released := Some(site))]
  }

  lemma {:induction false} ReleasedEntries(m: Model, key: Key, origin: RecordKind, site: Site)
    ensures ReleaseEntry(m, key, origin, site).entries
            == MarkReleased(m.entries, FindLatest(m.entries, key, true), site)
  {}

  lemma {:induction false} ReleasesCommute(m: Model, k: Key, l: Key, o1: RecordKind, s1: Site, o2: RecordKind, s2: Site)
    requires k != l
    ensures Alike(ReleaseEntry(ReleaseEntry(m, k, o1, s1), l, o2, s2),
                  ReleaseEntry(ReleaseEntry(m, l, o2, s2), k, o1, s1))
  {
    var x, y := Addition(m, k, o1, s1), Addition(m, l, o2, s2);
    var mk, ml := ReleaseEntry(m, k, o1, s1), ReleaseEntry(m, l, o2, s2);
    ReleaseAdds(m, k, o1, s1);
    ReleaseAdds(m, l, o2, s2);
    ReleaseAdds(mk, l, o2, s2);
    ReleaseAdds(ml, k, o1, s1);
    SameAddition(m, k, l, o1, s1, o2, s2);
    SameAddition(m, l, k, o2, s2, o1, s1);
    EntriesCommute(m, k, l, o1, s1, o2, s2);
    forall key {
      SwapAdditions(m.findings, x, y, k, l, key);
    }
  }

  lemma {:induction false} ReleaseAllCommutes(m: Model, strays: seq<Finding>, l: Key, k: Key, origin: RecordKind,
                                              site: Site)
    requires k != l && forall f :: f in strays ==> f.key == l
    ensures Alike(ReleaseAll(ReleaseEntry(m, k, origin, site), strays),
                  ReleaseEntry(ReleaseAll(m, strays), k, origin, site))
  {
    if strays != [] {
      var last, init := strays[|strays| - 1], strays[..|strays| - 1];
      assert last in strays;
      ReleaseAllCommutes(m, init, l, k, origin, site);
      var a, b := ReleaseAll(ReleaseEntry(m, k, origin, site), init), ReleaseAll(m, init);
      ReleaseAlike(a, ReleaseEntry(b, k, origin, site), l, last.origin, last.site);
      ReleasesCommute(b, k, l, origin, site, last.origin, last.site);
      AlikeTrans(ReleaseEntry(a, l, last.origin, last.site),
                 ReleaseEntry(ReleaseEntry(b, k, origin, site), l, last.origin, last.site),
                 ReleaseEntry(ReleaseEntry(b, l, last.origin, last.site), k, origin, site));
    }
  }

  // ---------- A close and the fork ----------

  /** Reconciling a key the close does not touch. */
  lemma {:induction false} ReconcileOtherKey(m: Model, l: Key, k: Key, origin: RecordKind, site: Site)
    requires k != l
    ensures Alike(Reconcile(ReleaseEntry(m, k, origin, site), l), ReleaseEntry(Reconcile(m, l), k, origin, site))
  {
    var x := Addition(m, k, origin, site);
    ReleaseAdds(m, k, origin, site);
    var quiet := m.(findings := Rest(m.findings, l));
    SelectionsSkip(m.findings, x, l, k);
    ReleaseAdds(quiet, k, origin, site);
    assert Addition(quiet, k, origin, site) == x;
    assert ReleaseEntry(m, k, origin, site).(findings := Rest(m.findings, l) + x)
           == ReleaseEntry(quiet, k, origin, site);
    StraysHaveKey(m.findings, l);
    ReleaseAllCommutes(quiet, Strays(m.findings, l), l, k, origin, site);
  }

  lemma {:induction false} StraysHaveKey(findings: seq<Finding>, key: Key)
    ensures forall f :: f in Strays(findings, key) ==> f.key == key
  {
    if findings != [] {
      StraysHaveKey(findings[..|findings| - 1], key);
    }
  }

  lemma {:induction false} SelectionsSkip(findings: seq<Finding>, x: seq<Finding>, l: Key, k: Key)
    requires k != l && |x| <= 1 && forall f :: f in x ==> f.key == k
    ensures Strays(findings + x, l) == Strays(findings, l) && Rest(findings + x, l) == Rest(findings, l) + x
  {
    if x == [] {
      assert findings + x == findings;
    } else {
      assert x[0] in x && x == [x[0]];
      assert (findings + x)[..|findings|] == findings;
      assert Strays(findings, l) + [] == Strays(findings, l);
    }
  }

  /** Closing an inherited descriptor before the fork record leaves a stray
      release, the last one that reconciliation replays. */
  lemma {:induction false} ReconcileOwnKey(m: Model, key: Key, site: Site, origin: RecordKind, size: nat,
                                           forkSite: Site)
    requires FindLatest(m.entries, key, false) < 0
    ensures Reconcile(AddEntry(ReleaseEntry(m, key, FdRecord, site), key, origin, size, forkSite), key)
            == ReleaseEntry(Reconcile(AddEntry(m, key, origin, size, forkSite), key), key, FdRecord, site)
  {
    LiveIsAny(m.entries, key);
    var f := Finding(StrayRelease, key, FdRecord, site, None, false);
    var closed := ReleaseEntry(m, key, FdRecord, site);
    assert closed.findings == m.findings + [f] && closed.entries == m.entries;
    assert (m.findings + [f])[..|m.findings|] == m.findings;
    var strays := Strays(m.findings, key);
    assert (strays + [f])[..|strays|] == strays;
    assert Rest(m.findings, key) + [] == Rest(m.findings, key);
  }

  lemma {:induction false} LiveIsAny(entries: seq<Entry>, key: Key)
    ensures FindLatest(entries, key, true) <= FindLatest(entries, key, false)
  {
    if entries != [] {
      LiveIsAny(entries[..|entries| - 1], key);
    }
  }

  lemma {:induction false} InheritsAfterRelease(m: Model, i: nat, parent: int, child: int, key: Key,
                                                origin: RecordKind, site: Site)
    requires i < |m.entries| && key.pid == child != parent
    ensures Inherits(ReleaseEntry(m, key, origin, site), i, parent, child) <==> Inherits(m, i, parent, child)
    ensures m.entries[i].key.pid == parent ==> ReleaseEntry(m, key, origin, site).entries[i] == m.entries[i]
  {
    var live := FindLatest(m.entries, key, true);
    if live >= 0 {
      FindLatestUpdated(m.entries, live, m.entries[live].(live := false, released := Some(site)),
                        m.entries[i].key.(pid := child), false);
    }
  }

  lemma {:induction false} AddEntryCommutes(m: Model, l: Key, lo: RecordKind, size: nat, ls: Site, k: Key,
                                            origin: RecordKind, site: Site)
    requires k != l
    ensures AddEntry(ReleaseEntry(m, k, origin, site), l, lo, size, ls)
            == ReleaseEntry(AddEntry(m, l, lo, size, ls), k, origin, site)
  {
    var e := Entry(l, lo, size, ls, None, true, false);
    FindLatestAppended(m.entries, e, k, true);
    FindLatestAppended(m.entries, e, k, false);
    var live := FindLatest(m.entries, k, true);
    if live >= 0 {
      var dead := m.entries[live].(live := false, released := Some(site));
      assert m.entries[live := dead] + [e] == (m.entries + [e])[live := dead];
    }
  }

  lemma {:induction false} CloseAndForkStep(m: Model, i: nat, parent: int, child: int, forkSite: Site, key: Key,
                                            site: Site)
    requires i < |m.entries| && key.pid == child != parent
    ensures Alike(ForkStep(ReleaseEntry(m, key, FdRecord, site), i, parent, child, forkSite),
                  ReleaseEntry(ForkStep(m, i, parent, child, forkSite), key, FdRecord, site))
  {
    InheritsAfterRelease(m, i, parent, child, key, FdRecord, site);
    if Inherits(m, i, parent, child) {
      var e := m.entries[i];
      var inherited := e.key.(pid := child);
      if inherited == key {
        ReconcileOwnKey(m, key, site, e.origin, e.size, forkSite);
      } else {
        AddEntryCommutes(m, inherited, e.origin, e.size, forkSite, key, FdRecord, site);
        ReconcileOtherKey(AddEntry(m, inherited, e.origin, e.size, forkSite), inherited, key, FdRecord, site);
      }
    }
  }

  lemma {:induction false} ReleaseLength(m: Model, key: Key, origin: RecordKind, site: Site)
    ensures |ReleaseEntry(m, key, origin, site).entries| == |m.entries|
  {}

  /** The next turn of the fork loop, after a close and before it. */
  lemma {:induction false} CloseAndForkTurn(a: Model, before: Model, i: nat, parent: int, child: int, forkSite: Site,
                                            key: Key, site: Site)
    requires i < |before.entries| == |a.entries| && key.pid == child != parent
    requires Alike(a, ReleaseEntry(before, key, FdRecord, site))
    ensures Alike(ForkStep(a, i, parent, child, forkSite),
                  ReleaseEntry(ForkStep(before, i, parent, child, forkSite), key, FdRecord, site))
  {
    var released := ReleaseEntry(before, key, FdRecord, site);
    ForkStepAlike(a, released, i, parent, child, forkSite);
    CloseAndForkStep(before, i, parent, child, forkSite, key, site);
    AlikeTrans(ForkStep(a, i, parent, child, forkSite), ForkStep(released, i, parent, child, forkSite),
               ReleaseEntry(ForkStep(before, i, parent, child, forkSite), key, FdRecord, site));
  }

  lemma {:induction false} CloseAndForkFirst(m: Model, n: nat, parent: int, child: int, forkSite: Site, key: Key,
                                             site: Site)
    requires n <= |m.entries| && key.pid == child != parent
    ensures |ReleaseEntry(m, key, FdRecord, site).entries| == |m.entries|
    ensures Alike(ForkFirst(ReleaseEntry(m, key, FdRecord, site), n, parent, child, forkSite),
                  ReleaseEntry(ForkFirst(m, n, parent, child, forkSite), key, FdRecord, site))
  {
    hide ForkStep, ReleaseEntry;
    ReleaseLength(m, key, FdRecord, site);
    if n > 0 {
      CloseAndForkFirst(m, n - 1, parent, child, forkSite, key, site);
      var a := ForkFirst(ReleaseEntry(m, key, FdRecord, site), n - 1, parent, child, forkSite);
      var before := ForkFirst(m, n - 1, parent, child, forkSite);
      ReleaseLength(before, key, FdRecord, site);
      CloseAndForkTurn(a, before, n - 1, parent, child, forkSite, key, site);
    }
  }

  /** One close by the child and the parent's fork record. */
  lemma {:induction false} CloseAndFork(m: Model, fork: LogRecord, close: LogRecord)
    requires IsFork(fork) && IsCloseBy(close, fork.body.child)
    ensures Alike(Ingest(Ingest(m, close), fork), Ingest(Ingest(m, fork), close))
  {
    var child, key := fork.body.child, FdKey(close.pid, close.body.fd);
    ReleaseLength(m, key, FdRecord, SiteOf(close));
    if fork.pid >= 0 && child >= 0 && fork.pid != child {
      CloseAndForkFirst(m, |m.entries|, fork.pid, child, SiteOf(fork), key, SiteOf(close));
    }
  }

  // ---------- Any number of closes ----------

  ghost predicate IsFork(r: LogRecord) {
    r.body.ForkBody?
  }

  ghost predicate IsCloseBy(r: LogRecord, pid: int) {
    r.pid == pid && r.body.FdBody? && r.body.fdKind == Close
  }

  ghost predicate ClosesBy(rs: seq<LogRecord>, pid: int) {
    forall r :: r in rs ==> IsCloseBy(r, pid)
  }

  lemma {:induction false} CloseAlike(a: Model, b: Model, close: LogRecord, pid: int)
    requires Alike(a, b) && IsCloseBy(close, pid)
    ensures Alike(Ingest(a, close), Ingest(b, close))
  {
    ReleaseAlike(a, b, FdKey(close.pid, close.body.fd), FdRecord, SiteOf(close));
  }

  /** Closes replayed before the fork record and repaired by it give the same
      entries and the same findings as closes replayed after it. */
  lemma {:induction false} ClosesCommuteWithFork(m: Model, fork: LogRecord, closes: seq<LogRecord>)
    requires IsFork(fork) && ClosesBy(closes, fork.body.child)
    ensures AllWellFormed(closes)
    ensures Alike(Ingest(Replay(m, closes), fork), Replay(Ingest(m, fork), closes))
    ensures multiset(Ingest(Replay(m, closes), fork).findings) == multiset(Replay(Ingest(m, fork), closes).findings)
  {
    if closes != [] {
      var last, init := closes[|closes| - 1], closes[..|closes| - 1];
      assert last in closes;
      ClosesCommuteWithFork(m, fork, init);
      CloseAndFork(Replay(m, init), fork, last);
      CloseAlike(Ingest(Replay(m, init), fork), Replay(Ingest(m, fork), init), last, fork.body.child);
      AlikeTrans(Ingest(Replay(m, closes), fork), Ingest(Ingest(Replay(m, init), fork), last),
                 Replay(Ingest(m, fork), closes));
    }
    AlikeSameFindings(Ingest(Replay(m, closes), fork), Replay(Ingest(m, fork), closes));
  }
}
