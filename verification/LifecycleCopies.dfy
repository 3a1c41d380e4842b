/** What a fork record copies, told from the tables alone: one entry for every
    descriptor that the parent holds live and the child has never had. */
module LifecycleCopies {
  import opened LifecycleFork
  import opened LifecycleSpec
  import opened Wrappers

  // ---------- Tables ----------

  ghost predicate HasEntry(entries: seq<Entry>, key: Key) {
    exists e :: e in entries && e.key == key
  }

  ghost predicate HeldLive(entries: seq<Entry>, key: Key) {
    exists e :: e in entries && e.key == key && e.live
  }

  predicate StrayOf(f: Finding, key: Key) {
    f.kind == StrayRelease && f.key == key
  }

  ghost predicate HasStray(findings: seq<Finding>, key: Key) {
    exists f :: f in findings && StrayOf(f, key)
  }

  /** The oldest stray release of the key was made there. */
  ghost predicate FirstStrayAt(findings: seq<Finding>, key: Key, site: Site) {
    exists k :: 0 <= k < |findings| && StrayOf(findings[k], key) && findings[k].site == site
                && forall j :: 0 <= j < k ==> !StrayOf(findings[j], key)
  }

  /** e is the child's copy of entry i, the parent's oldest live one of its
      descriptor: live, unless the child was seen to release it before. */
  ghost predicate CopyOf(m: Model, e: Entry, i: nat, parent: int, child: int, site: Site) {
    && i < |m.entries| && m.entries[i].live && m.entries[i].key == Key(parent, "fd", e.key.id)
    && (forall j :: 0 <= j < i ==> !(m.entries[j].live && m.entries[j].key == m.entries[i].key))
    && e.key == Key(child, "fd", m.entries[i].key.id) && !HasEntry(m.entries, e.key)
    && e.origin == m.entries[i].origin && e.size == m.entries[i].size && e.acquired == site && !e.pending
    && (if e.live then e.released == None && !HasStray(m.findings, e.key)
        else e.released.Some? && FirstStrayAt(m.findings, e.key, e.released.value))
  }

  ghost predicate IsCopy(m: Model, e: Entry, n: nat, parent: int, child: int, site: Site) {
    exists i: nat :: i < n && CopyOf(m, e, i, parent, child, site)
  }

  /** Some entry after the first has the key. */
  ghost predicate NewKey(entries: seq<Entry>, first: nat, key: Key) {
    exists x :: first <= x < |entries| && entries[x].key == key
  }

  ghost predicate OffersTaken(m: Model, r: Model, n: nat, parent: int, child: int) {
    forall i :: 0 <= i < n && i < |m.entries| && m.entries[i].live && m.entries[i].key.pid == parent
                && m.entries[i].key.cls == "fd" ==>
                  HasEntry(r.entries, Key(child, "fd", m.entries[i].key.id))
  }

  /** After the first n entries were offered: the entries stay, copies follow,
      one for each key, nobody is left out; findings of other keys stay. */
  ghost predicate Copied(m: Model, r: Model, n: nat, parent: int, child: int, site: Site) {
    && m.entries <= r.entries
    && (forall x :: |m.entries| <= x < |r.entries| ==> IsCopy(m, r.entries[x], n, parent, child, site))
    && (forall x, y :: |m.entries| <= x < y < |r.entries| ==> r.entries[x].key != r.entries[y].key)
    && OffersTaken(m, r, n, parent, child)
    && (forall key :: !NewKey(r.entries, |m.entries|, key) ==> ByKey(r.findings, key) == ByKey(m.findings, key))
    && (forall key :: NewKey(r.entries, |m.entries|, key) ==> !HasStray(r.findings, key))
  }

  // ---------- Selections ----------

  lemma {:induction false} LatestIffHas(entries: seq<Entry>, key: Key)
    ensures FindLatest(entries, key, false) >= 0 <==> HasEntry(entries, key)
  {
    if entries != [] {
      var n := |entries| - 1;
      LatestIffHas(entries[..n], key);
      assert forall e :: e in entries <==> e in entries[..n] || e == entries[n];
    }
  }

  lemma {:induction false} LoneIsLatest(entries: seq<Entry>, e: Entry, key: Key, liveOnly: bool)
    requires !HasEntry(entries, key) && e.key == key
    ensures FindLatest(entries + [e], key, liveOnly) == if e.live || !liveOnly then |entries| else -1
  {
    assert (entries + [e])[..|entries|] == entries;
    NoneToFind(entries, key, liveOnly);
  }

  lemma {:induction false} NoneToFind(entries: seq<Entry>, key: Key, liveOnly: bool)
    requires !HasEntry(entries, key)
    ensures FindLatest(entries, key, liveOnly) == -1
  {
    if entries != [] {
      var n := |entries| - 1;
      assert entries[n] in entries && forall e :: e in entries[..n] ==> e in entries;
      NoneToFind(entries[..n], key, liveOnly);
    }
  }

  lemma {:induction false} FirstStrayStays(findings: seq<Finding>, f: Finding, key: Key, site: Site)
    requires FirstStrayAt(findings, key, site)
    ensures FirstStrayAt(findings + [f], key, site)
  {
    var k :| 0 <= k < |findings| && StrayOf(findings[k], key) && findings[k].site == site
             && forall j :: 0 <= j < k ==> !StrayOf(findings[j], key);
    assert (findings + [f])[k] == findings[k];
  }

  lemma {:induction false} FirstStrayComes(findings: seq<Finding>, f: Finding, key: Key)
    requires !HasStray(findings, key) && StrayOf(f, key)
    ensures FirstStrayAt(findings + [f], key, f.site)
  {
    assert (findings + [f])[|findings|] == f;
  }

  lemma {:induction false} StraysFound(findings: seq<Finding>, key: Key)
    ensures Strays(findings, key) != [] <==> HasStray(findings, key)
    ensures Strays(findings, key) != [] ==> FirstStrayAt(findings, key, Strays(findings, key)[0].site)
  {
    hide FirstStrayAt;
    if findings != [] {
      var n := |findings| - 1;
      var init, f := findings[..n], findings[n];
      StraysFound(init, key);
      assert findings == init + [f];
      if Strays(init, key) != [] {
        FirstStrayStays(init, f, key, Strays(init, key)[0].site);
      } else if StrayOf(f, key) {
        FirstStrayComes(init, f, key);
      }
    }
  }

  lemma {:induction false} RestHasNone(findings: seq<Finding>, key: Key)
    ensures !HasStray(Rest(findings, key), key)
  {
    if findings != [] {
      var n := |findings| - 1;
      RestHasNone(findings[..n], key);
      var init := Rest(findings[..n], key);
      assert forall f :: f in init + [findings[n]] <==> f in init || f == findings[n];
    }
  }

  /** Findings alike in a key have the same strays of it. */
  lemma {:induction false} SameStrays(a: seq<Finding>, b: seq<Finding>, key: Key)
    requires ByKey(a, key) == ByKey(b, key)
    ensures Strays(a, key) == Strays(b, key) && (HasStray(a, key) <==> HasStray(b, key))
  {
    StraysByKey(a, key);
    StraysByKey(b, key);
    StraysFound(a, key);
    StraysFound(b, key);
  }

  // ---------- One copy ----------

  /** The child's entry after the child's stray releases. */
  function Settled(e: Entry, strays: seq<Finding>): Entry {
    if strays == [] then e else e.(live := false, released := Some(strays[0].site))
  }

  lemma {:induction false} FirstMeetsCopy(m: Model, e: Entry, f: Finding)
    requires !HasEntry(m.entries, e.key) && e.live && f.key == e.key
    ensures ReleaseEntry(m.(entries := m.entries + [e]), f.key, f.origin, f.site)
            == m.(entries := m.entries + [e.(live := false, released := Some(f.site))])
  {
    hide FindLatest, HasEntry;
    LoneIsLatest(m.entries, e, e.key, true);
    assert (m.entries + [e])[|m.entries| := e.(live := false, released := Some(f.site))]
           == m.entries + [e.(live := false, released := Some(f.site))];
  }

  lemma {:induction false} NextMeetsCopy(m: Model, e: Entry, f: Finding) returns (double: Finding)
    requires !HasEntry(m.entries, e.key) && !e.live && f.key == e.key
    ensures ReleaseEntry(m.(entries := m.entries + [e]), f.key, f.origin, f.site)
            == Model(m.entries + [e], m.findings + [double])
    ensures double.key == e.key && double.kind == DoubleRelease
  {
    hide FindLatest, HasEntry;
    var all := m.(entries := m.entries + [e]);
    LoneIsLatest(m.entries, e, e.key, true);
    LoneIsLatest(m.entries, e, e.key, false);
    double := NewFinding(all, DoubleRelease, f.key, f.origin, f.site, |m.entries|);
  }

  /** Stray releases meet the new entry: the first ends it, the others are double. */
  lemma {:induction false} ReleasesMeetCopy(m: Model, e: Entry, strays: seq<Finding>) returns (extra: seq<Finding>)
    requires !HasEntry(m.entries, e.key) && e.live && forall f :: f in strays ==> f.key == e.key
    ensures ReleaseAll(m.(entries := m.entries + [e]), strays)
            == Model(m.entries + [Settled(e, strays)], m.findings + extra)
    ensures forall f :: f in extra ==> f.key == e.key && f.kind == DoubleRelease
  {
    hide ReleaseEntry, HasEntry;
    extra := [];
    if strays == [] {
      assert m.findings + extra == m.findings;
    } else {
      var n := |strays| - 1;
      var last, init := strays[n], strays[..n];
      assert last in strays && forall f :: f in init ==> f in strays;
      extra := ReleasesMeetCopy(m, e, init);
      var before := m.(findings := m.findings + extra);
      if n == 0 {
        assert extra == [] by { NothingReplayed(m, e, init, extra); }
        FirstMeetsCopy(before, e, last);
      } else {
        var double := NextMeetsCopy(before, Settled(e, init), last);
        assert m.findings + extra + [double] == m.findings + (extra + [double]);
        extra := extra + [double];
      }
    }
  }

  lemma {:induction false} NothingReplayed(m: Model, e: Entry, strays: seq<Finding>, extra: seq<Finding>)
    requires strays == []
    requires ReleaseAll(m.(entries := m.entries + [e]), strays).findings == m.findings + extra
    ensures extra == []
  {
    assert |m.findings + extra| == |m.findings|;
  }

  lemma {:induction false} NoStrayAdded(a: seq<Finding>, b: seq<Finding>, key: Key)
    requires !HasStray(a, key) && forall f :: f in b ==> f.kind == DoubleRelease
    ensures !HasStray(a + b, key)
  {}

  lemma {:induction false} OnlyOfKey(a: seq<Finding>, b: seq<Finding>, key: Key, other: Key)
    requires key != other && forall f :: f in b ==> f.key == key
    ensures ByKey(Rest(a, key) + b, other) == ByKey(a, other)
  {
    RestOtherKey(a, key, other);
    ByKeyConcat(Rest(a, key), b, other);
    NoneOfKey(b, other);
    assert ByKey(a, other) + [] == ByKey(a, other);
  }

  /** One entry copied. */
  lemma {:induction false} StepCopies(m: Model, i: nat, parent: int, child: int, site: Site)
    requires i < |m.entries| && Inherits(m, i, parent, child)
    ensures var r, s := ForkStep(m, i, parent, child, site), m.entries[i];
            var key := Key(child, "fd", s.key.id);
            var copy := Settled(Entry(key, s.origin, s.size, site, None, true, false), Strays(m.findings, key));
            && r.entries == m.entries + [copy]
            && !HasStray(r.findings, key)
            && forall other :: other != key ==> ByKey(r.findings, other) == ByKey(m.findings, other)
  {
    hide FindLatest, ReleaseAll, Strays, Rest, HasStray, ByKey;
    var s := m.entries[i];
    var key := s.key.(pid := child);
    var e := Entry(key, s.origin, s.size, site, None, true, false);
    var quiet := m.(findings := Rest(m.findings, key));
    LatestIffHas(m.entries, key);
    StraysHaveKey(m.findings, key);
    var extra := ReleasesMeetCopy(quiet, e, Strays(m.findings, key));
    RestHasNone(m.findings, key);
    NoStrayAdded(quiet.findings, extra, key);
    forall other | other != key
      ensures ByKey(quiet.findings + extra, other) == ByKey(m.findings, other)
    {
      OnlyOfKey(m.findings, extra, key, other);
    }
  }

  // ---------- The whole fork ----------

  lemma {:induction false} NewKeyAppended(entries: seq<Entry>, e: Entry, first: nat, key: Key)
    requires first <= |entries|
    ensures NewKey(entries + [e], first, key) <==> NewKey(entries, first, key) || e.key == key
    ensures HasEntry(entries + [e], key) <==> HasEntry(entries, key) || e.key == key
  {
    var all := entries + [e];
    forall x | 0 <= x < |entries|
      ensures all[x] == entries[x]
    {}
    assert all[|entries|] == e;
    assert forall y :: y in all <==> y in entries || y == e;
  }

  lemma {:induction false} NewIsEntry(entries: seq<Entry>, first: nat, key: Key)
    ensures NewKey(entries, first, key) ==> HasEntry(entries, key)
  {}

  /** A copied entry is a copy of the first table's entry too. */
  lemma {:induction false} CopiedNext(m: Model, before: Model, n: nat, parent: int, child: int, site: Site)
    requires n < |m.entries| && parent != child && Copied(m, before, n, parent, child, site)
    requires Inherits(before, n, parent, child)
    ensures var s := m.entries[n];
            var key := Key(child, "fd", s.key.id);
            var copy := Settled(Entry(key, s.origin, s.size, site, None, true, false), Strays(before.findings, key));
            before.entries[n] == s && CopyOf(m, copy, n, parent, child, site) && !HasEntry(before.entries, key)
            && ByKey(before.findings, key) == ByKey(m.findings, key)
  {
    hide IsCopy, Strays, ByKey, FirstStrayAt, HasStray;
    var s := m.entries[n];
    assert before.entries[n] == s;
    var key := s.key.(pid := child);
    assert key == Key(child, "fd", s.key.id);
    LatestIffHas(before.entries, key);
    NewIsEntry(before.entries, |m.entries|, key);
    SameStrays(before.findings, m.findings, key);
    StraysFound(m.findings, key);
    forall j | 0 <= j < n
      ensures !(m.entries[j].live && m.entries[j].key == s.key)
    {}
    assert !HasEntry(m.entries, key) by { PrefixHas(m.entries, before.entries, key); }
  }

  lemma {:induction false} PrefixHas(a: seq<Entry>, b: seq<Entry>, key: Key)
    requires a <= b && !HasEntry(b, key)
    ensures !HasEntry(a, key)
  {
    assert forall e :: e in a ==> e in b;
  }

  lemma {:induction false} CopyLater(m: Model, e: Entry, n: nat, parent: int, child: int, site: Site)
    requires IsCopy(m, e, n, parent, child, site)
    ensures IsCopy(m, e, n + 1, parent, child, site)
  {
    hide CopyOf;
  }

  /** One more entry offered and copied. */
  lemma {:induction false} OfferCopied(m: Model, before: Model, n: nat, parent: int, child: int, site: Site)
    requires n < |m.entries| && parent != child && Copied(m, before, n, parent, child, site)
    requires Inherits(before, n, parent, child)
    ensures Copied(m, ForkStep(before, n, parent, child, site), n + 1, parent, child, site)
  {
    hide ForkStep, Inherits, CopyOf, HasEntry, NewKey, Strays, Settled, ByKey, HasStray;
    var r := ForkStep(before, n, parent, child, site);
    var s := m.entries[n];
    var key := Key(child, "fd", s.key.id);
    var copy := Settled(Entry(key, s.origin, s.size, site, None, true, false), Strays(before.findings, key));
    CopiedNext(m, before, n, parent, child, site);
    StepCopies(before, n, parent, child, site);
    assert copy.key == key by { SettledKeepsKey(Entry(key, s.origin, s.size, site, None, true, false),
                                                Strays(before.findings, key)); }
    forall k
      ensures NewKey(r.entries, |m.entries|, k) <==> NewKey(before.entries, |m.entries|, k) || k == key
      ensures HasEntry(r.entries, k) <==> HasEntry(before.entries, k) || k == key
    {
      NewKeyAppended(before.entries, copy, |m.entries|, k);
    }
    forall x | |m.entries| <= x < |r.entries|
      ensures IsCopy(m, r.entries[x], n + 1, parent, child, site)
    {
      if x < |before.entries| {
        CopyLater(m, before.entries[x], n, parent, child, site);
      }
    }
    forall x, y | |m.entries| <= x < y < |r.entries|
      ensures r.entries[x].key != r.entries[y].key
    {
      if y == |before.entries| {
        InEntries(before.entries, x, key);
      }
    }
    forall k | k != key
      ensures HasStray(r.findings, k) <==> HasStray(before.findings, k)
    {
      SameStrays(r.findings, before.findings, k);
    }
  }

  lemma {:induction false} SettledKeepsKey(e: Entry, strays: seq<Finding>)
    ensures Settled(e, strays).key == e.key
  {}

  lemma {:induction false} InEntries(entries: seq<Entry>, x: nat, key: Key)
    requires x < |entries| && !HasEntry(entries, key)
    ensures entries[x].key != key
  {
    assert entries[x] in entries;
  }

  /** One more entry offered that the child does not take. */
  lemma {:induction false} OfferDeclined(m: Model, before: Model, n: nat, parent: int, child: int, site: Site)
    requires n < |m.entries| && parent != child && Copied(m, before, n, parent, child, site)
    requires !Inherits(before, n, parent, child)
    ensures Copied(m, before, n + 1, parent, child, site)
  {
    hide CopyOf, HasEntry, NewKey, ByKey, HasStray, IsCopy;
    var s := m.entries[n];
    assert before.entries[n] == s;
    LatestIffHas(before.entries, s.key.(pid := child));
    assert s.key.cls == "fd" ==> s.key.(pid := child) == Key(child, "fd", s.key.id);
    forall x | |m.entries| <= x < |before.entries|
      ensures IsCopy(m, before.entries[x], n + 1, parent, child, site)
    {
      CopyLater(m, before.entries[x], n, parent, child, site);
    }
  }

  lemma {:induction false} NothingOffered(m: Model, parent: int, child: int, site: Site)
    ensures Copied(m, m, 0, parent, child, site)
  {}

  lemma {:induction false} FirstCopied(m: Model, n: nat, parent: int, child: int, site: Site)
    requires n <= |m.entries| && parent != child
    ensures Copied(m, ForkFirst(m, n, parent, child, site), n, parent, child, site)
  {
    hide Copied, Reconcile, AddEntry, FindLatest;
    if n == 0 {
      NothingOffered(m, parent, child, site);
    } else {
      var before := ForkFirst(m, n - 1, parent, child, site);
      FirstCopied(m, n - 1, parent, child, site);
      if Inherits(before, n - 1, parent, child) {
        OfferCopied(m, before, n - 1, parent, child, site);
      } else {
        OfferDeclined(m, before, n - 1, parent, child, site);
      }
    }
  }

  /** What a fork record does: nothing without two processes. Otherwise the old
      entries stay and the copies follow. The child has an entry of a descriptor
      exactly when it had one or the parent held the descriptor live; the copy is
      the parent's oldest live entry, made at the fork, live unless the child
      released it before. No other key's findings change. */
  lemma {:induction false} ForkCopies(m: Model, parent: int, child: int, site: Site)
    ensures parent < 0 || child < 0 || parent == child ==> IngestFork(m, parent, child, site) == m
    ensures parent >= 0 && child >= 0 && parent != child ==>
              ForkCopied(m, IngestFork(m, parent, child, site), parent, child, site)
  {
    hide CopyOf, ForkFirst, ByKey, HasStray;
    if parent >= 0 && child >= 0 && parent != child {
      var r := IngestFork(m, parent, child, site);
      FirstCopied(m, |m.entries|, parent, child, site);
      forall id
        ensures HasEntry(r.entries, Key(child, "fd", id))
                <==> HasEntry(m.entries, Key(child, "fd", id)) || HeldLive(m.entries, Key(parent, "fd", id))
      {
        ChildHasIff(m, r, parent, child, site, id);
      }
    }
  }

  ghost predicate ForkCopied(m: Model, r: Model, parent: int, child: int, site: Site) {
    && m.entries <= r.entries
    && (forall id :: HasEntry(r.entries, Key(child, "fd", id))
                     <==> HasEntry(m.entries, Key(child, "fd", id)) || HeldLive(m.entries, Key(parent, "fd", id)))
    && (forall x :: |m.entries| <= x < |r.entries| ==> IsCopy(m, r.entries[x], |m.entries|, parent, child, site))
    && (forall x, y :: |m.entries| <= x < y < |r.entries| ==> r.entries[x].key != r.entries[y].key)
    && (forall key :: !NewKey(r.entries, |m.entries|, key) ==> ByKey(r.findings, key) == ByKey(m.findings, key))
    && (forall key :: NewKey(r.entries, |m.entries|, key) ==> !HasStray(r.findings, key))
  }

  lemma {:induction false} ChildHasIff(m: Model, r: Model, parent: int, child: int, site: Site, id: string)
    requires parent != child && Copied(m, r, |m.entries|, parent, child, site)
    ensures HasEntry(r.entries, Key(child, "fd", id))
            <==> HasEntry(m.entries, Key(child, "fd", id)) || HeldLive(m.entries, Key(parent, "fd", id))
  {
    hide ByKey, HasStray, FirstStrayAt;
    var key, held := Key(child, "fd", id), Key(parent, "fd", id);
    if e :| e in r.entries && e.key == key {
      var x :| 0 <= x < |r.entries| && r.entries[x] == e;
      if x < |m.entries| {
        assert e in m.entries;
      } else {
        var i: nat :| i < |m.entries| && CopyOf(m, e, i, parent, child, site);
        assert m.entries[i] in m.entries;
      }
    }
    if e :| e in m.entries && e.key == key {
      assert e in r.entries;
    }
    if e :| e in m.entries && e.key == held && e.live {
      var i :| 0 <= i < |m.entries| && m.entries[i] == e;
    }
  }
}
