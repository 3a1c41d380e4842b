/** Two independent readings of a log of descriptors, allocations and resources:
    the lifetime edges of the causal model and the replayed entries. As long as
    nothing is acquired while it is live they agree, except where a reallocation
    has no result or a replacement names nothing. */
module LifetimeReplay {
  import opened Events
  import opened LifecycleHistory
  import opened LifecycleSpec
  import opened Lifetimes
  import opened Numerals
  import opened Wrappers

  // ---------- Streams ----------

  /** A descriptor, allocation or resource record; a resource has not the class
      of a descriptor or an allocation. */
  predicate OfKind(r: LogRecord) {
    r.body.FdBody? || r.body.AllocBody?
    || (r.body.ResourceBody? && Plain(r) && r.body.cls != Some("fd") && r.body.cls != Some("allocation"))
  }

  predicate Tracked(rs: seq<LogRecord>) {
    forall i :: 0 <= i < |rs| ==> OfKind(rs[i])
  }

  predicate Ascending(rs: seq<LogRecord>) {
    forall a, b :: 0 <= a < b < |rs| && rs[a].pid == rs[b].pid ==> rs[a].sequence < rs[b].sequence
  }

  lemma {:induction false} TrackedArePlain(rs: seq<LogRecord>)
    requires Tracked(rs)
    ensures AllPlain(rs)
  {}

  predicate Closes(close: LogRecord, open: LogRecord) {
    Taken(open).Some? && Given(close) == Taken(open)
  }

  /** The first record before k that releases what record i acquired, or -1. */
  function FirstClose(rs: seq<LogRecord>, i: nat, k: nat): (r: int)
    requires i < |rs| && k <= |rs|
    ensures r >= 0 ==> i < r < k && Closes(rs[r], rs[i])
    ensures forall j: nat :: i < j < (if r >= 0 then r else k) ==> !Closes(rs[j], rs[i])
  {
    if k <= i + 1 then -1
    else
      var before := FirstClose(rs, i, k - 1);
      if before >= 0 then before else if Closes(rs[k - 1], rs[i]) then k - 1 else -1
  }

  /** Record j acquires what record i did, and nothing released it between. */
  predicate Reopens(rs: seq<LogRecord>, i: nat, j: nat) {
    i < j < |rs| && Taken(rs[i]).Some? && Taken(rs[i]) == Taken(rs[j]) && FirstClose(rs, i, j + 1) < 0
  }

  ghost predicate NotReopened(rs: seq<LogRecord>) {
    forall i: nat, j: nat :: !Reopens(rs, i, j)
  }

  // ---------- Every acquisition ends at its first release ----------

  lemma {:induction false} CloseFound(rs: seq<LogRecord>, i: nat, j: nat, k: nat)
    requires i < j < k <= |rs| && Closes(rs[j], rs[i])
    ensures FirstClose(rs, i, k) >= 0
  {}

  lemma {:induction false} CloseKept(rs: seq<LogRecord>, i: nat, j: nat, k: nat)
    requires i < |rs| && j <= k <= |rs| && FirstClose(rs, i, j) >= 0
    ensures FirstClose(rs, i, k) >= 0
  {
    CloseFound(rs, i, FirstClose(rs, i, j), k);
  }

  /** An end is a release of the key. */
  lemma {:induction false} EndCloses(rs: seq<LogRecord>, i: nat, k: nat)
    requires i < |rs| && k <= |rs| && Taken(rs[i]).Some?
    ensures EndOf(rs, i, k) >= 0 ==> Closes(rs[EndOf(rs, i, k)], rs[i])
    decreases k
  {
    hide Taken, Given;
    if k > i + 1 {
      EndCloses(rs, i, k - 1);
      BetweenTakes(rs, k - 1, Taken(rs[i]).value);
    }
  }

  lemma {:induction false} NewestIsOnlyOne(rs: seq<LogRecord>, i: nat, k: nat)
    requires NotReopened(rs) && i < k < |rs| && Taken(rs[i]).Some? && FirstClose(rs, i, k) < 0
    requires i in Live(rs, k, Taken(rs[i]).value)
    ensures Live(rs, k, Taken(rs[i]).value)[|Live(rs, k, Taken(rs[i]).value)| - 1] == i
  {
    hide Taken, Live, FirstClose;
    var live := Live(rs, k, Taken(rs[i]).value);
    LiveTakes(rs, k, Taken(rs[i]).value);
    var last := live[|live| - 1];
    assert last in live;
    LastIsLargest(live, i);
    if last != i {
      assert !Reopens(rs, i, last);
      CloseKept(rs, i, last + 1, k);
      assert false;
    }
  }

  lemma {:induction false} EndIsFirstClose(rs: seq<LogRecord>, i: nat, k: nat)
    requires NotReopened(rs) && i < k <= |rs| && Taken(rs[i]).Some?
    ensures EndOf(rs, i, k) == FirstClose(rs, i, k)
    decreases k
  {
    hide Taken, Given, Live, NotReopened;
    if k > i + 1 {
      EndIsFirstClose(rs, i, k - 1);
      EndNext(rs, i, k - 1);
      LiveUntilEnd(rs, i, k - 1);
      if FirstClose(rs, i, k - 1) < 0 {
        NewestIsOnlyOne(rs, i, k - 1);
      }
    }
  }

  /** After every prefix each acquisition's entry says where it was made and, if
      it was released, where that first happened. */
  lemma {:induction false} ReplayAgrees(rs: seq<LogRecord>, i: nat, k: nat)
    requires AllPlain(rs) && NotReopened(rs) && i < k <= |rs| && Taken(rs[i]).Some?
    ensures |At(rs, k).entries| == TakeCount(rs, k) && TakeCount(rs, i) < TakeCount(rs, k)
    ensures var e, close := At(rs, k).entries[TakeCount(rs, i)], FirstClose(rs, i, k);
            e.key == Taken(rs[i]).value && e.acquired == SiteOf(rs[i]) && e.live == (close < 0)
            && e.released == if close < 0 then None else Some(SiteOf(rs[close]))
  {
    hide At, NotReopened, Taken, FirstClose, EndOf, SiteOf;
    ReplayIsHistory(rs, k);
    CountMonotone(rs, i, k);
    AtTake(rs, At(rs, k).entries, k, k, i);
    EndIsFirstClose(rs, i, k);
  }

  // ---------- Duplicates ----------

  /** Records that acquire only by replacing or transferring. */
  predicate Replaces(r: LogRecord) {
    r.body.ResourceBody? && (r.body.op == Replace || r.body.op == Transfer)
  }

  ghost predicate ReportsDuplicate(fs: seq<Finding>) {
    exists f :: f in fs && f.kind == DuplicateAcquire
  }

  ghost predicate OnlyKind(fs: seq<Finding>, kind: FindingKind) {
    forall f :: f in fs ==> f.kind == kind
  }

  lemma {:induction false} KindsOfReports(rs: seq<LogRecord>, k: nat, key: Key)
    requires k < |rs|
    ensures forall f :: f in Missing(rs, k, key) ==> f.kind == StrayRelease || f.kind == DoubleRelease
    ensures OnlyKind(Duplicate(rs, k, key), DuplicateAcquire)
    ensures Duplicate(rs, k, key) != [] <==> LiveBetween(rs, k, key) != []
    ensures OnlyKind(Unless(rs, k, key, BadReplace), BadReplace) && OnlyKind(Unless(rs, k, key, InvalidUse), InvalidUse)
    ensures OnlyKind(Always(rs, k, key, BadReplace), BadReplace) && OnlyKind(Kept(rs, k, key), ExecInherit)
  {
    hide LiveBetween, Live, Newest, EndOf, PlaceOf;
  }

  /** A record reports a duplicate exactly when it acquires what is live, unless
      it replaces or transfers. No record reports a leak. */
  lemma {:induction false} ReportsOfRecord(rs: seq<LogRecord>, k: nat)
    requires k < |rs|
    ensures !Replaces(rs[k]) ==>
              (ReportsDuplicate(Reports(rs, k))
               <==> Taken(rs[k]).Some? && LiveBetween(rs, k, Taken(rs[k]).value) != [])
    ensures forall f :: f in Reports(rs, k) ==> f.kind != Leak
  {
    hide LiveBetween, FdText, Missing, Duplicate, Unless, Always, Kept;
    var r := rs[k];
    forall key {
      KindsOfReports(rs, k, key);
    }
    if Taken(r).Some? {
      var fs := Duplicate(rs, k, Taken(r).value);
      if fs != [] {
        assert fs[0] in fs;
        assert !Replaces(r) ==> fs[0] in Reports(rs, k);
      }
    }
  }

  lemma {:induction false} AllReportsHave(rs: seq<LogRecord>, j: nat, k: nat)
    requires j < k <= |rs|
    ensures forall f :: f in Reports(rs, j) ==> f in AllReports(rs, k)
    decreases k
  {
    hide Reports;
    if j < k - 1 {
      AllReportsHave(rs, j, k - 1);
    }
  }

  lemma {:induction false} AllReportsFrom(rs: seq<LogRecord>, k: nat, f: Finding)
    requires k <= |rs|
    ensures f in AllReports(rs, k) ==> exists j: nat :: ReportedBy(rs, k, j, f)
  {
    hide Reports;
    if k > 0 && f in AllReports(rs, k) {
      if f in Reports(rs, k - 1) {
        assert ReportedBy(rs, k, k - 1, f);
      } else {
        AllReportsFrom(rs, k - 1, f);
        var j: nat :| ReportedBy(rs, k - 1, j, f);
        assert ReportedBy(rs, k, j, f);
      }
    }
  }

  predicate ReportedBy(rs: seq<LogRecord>, k: nat, j: nat, f: Finding)
    requires k <= |rs|
  {
    j < k && f in Reports(rs, j)
  }

  lemma {:induction false} ReopenedIsLive(rs: seq<LogRecord>, i: nat, j: nat)
    requires Reopens(rs, i, j)
    ensures i in LiveBetween(rs, j, Taken(rs[j]).value)
  {
    hide Taken, LiveBetween, EndOf;
    EndCloses(rs, i, j + 1);
    LiveBetweenUntilEnd(rs, i, j);
  }

  lemma {:induction false} LiveIsReopened(rs: seq<LogRecord>, j: nat)
    requires j < |rs| && Taken(rs[j]).Some? && LiveBetween(rs, j, Taken(rs[j]).value) != []
    ensures !NotReopened(rs)
  {
    hide Taken, LiveBetween, EndOf;
    var live := LiveBetween(rs, j, Taken(rs[j]).value);
    BetweenTakes(rs, j, Taken(rs[j]).value);
    var i := live[0];
    assert i in live;
    if NotReopened(rs) {
      LiveBetweenUntilEnd(rs, i, j);
      EndIsFirstClose(rs, i, j + 1);
      IsReopening(rs, i, j);
    }
  }

  lemma {:induction false} IsReopening(rs: seq<LogRecord>, i: nat, j: nat)
    requires i < j < |rs| && Taken(rs[i]).Some? && Taken(rs[i]) == Taken(rs[j]) && FirstClose(rs, i, j + 1) < 0
    ensures !NotReopened(rs)
  {
    assert Reopens(rs, i, j);
  }

  /** Without replacements nothing is acquired while it is live exactly when the
      replay reports no duplicate. */
  lemma {:induction false} NotReopenedIffNoDuplicate(rs: seq<LogRecord>)
    requires AllPlain(rs) && forall i :: 0 <= i < |rs| ==> !Replaces(rs[i])
    ensures NotReopened(rs) <==> !ReportsDuplicate(At(rs, |rs|).findings)
  {
    hide At, AllReports, Reports, Taken, Reopens, LiveBetween;
    ReplayIsHistory(rs, |rs|);
    if i: nat, j: nat :| Reopens(rs, i, j) {
      assert i < j < |rs| && Taken(rs[j]).Some? by { ReopensInRange(rs, i, j); }
      ReopenedIsLive(rs, i, j);
      ReportsOfRecord(rs, j);
      AllReportsHave(rs, j, |rs|);
    }
    if ReportsDuplicate(At(rs, |rs|).findings) {
      var f :| f in AllReports(rs, |rs|) && f.kind == DuplicateAcquire;
      AllReportsFrom(rs, |rs|, f);
      var j: nat :| ReportedBy(rs, |rs|, j, f);
      ReportsOfRecord(rs, j);
      LiveIsReopened(rs, j);
    }
  }

  lemma {:induction false} ReopensInRange(rs: seq<LogRecord>, i: nat, j: nat)
    requires Reopens(rs, i, j)
    ensures i < j < |rs| && Taken(rs[j]).Some?
  {}

  // ---------- The model's nodes ----------

  /** A text of the log denotes no pointer if it is a null text. */
  predicate Denotes(text: string, pointer: Option<string>, nulls: set<string>) {
    pointer == if text in nulls then None else Some(text)
  }

  /** The fields of a node that the causal model copies from a record. */
  predicate Copies(n: Node, r: LogRecord, nulls: set<string>) {
    n.pid == r.pid && n.sequence == r.sequence
    && match r.body
       case FdBody(kind, fd) => n.kind == FdRecord && n.fdKind == kind && n.fd == fd
       case AllocBody(kind, ptr, newPtr) =>
         n.kind == AllocRecord && n.allocKind == kind && Denotes(n.ptr, ptr, nulls)
         && (kind == Realloc ==> Denotes(n.newPtr, newPtr, nulls) && n.newPtrNull == (n.newPtr in nulls))
       case ResourceBody(op, cls, id, related) =>
         n.kind == ResourceRecord && n.resourceKind == op && Some(n.resourceClass) == cls && Some(n.resourceId) == id
         && n.relatedId == if related.None? then "" else related.value
       case _ => false
  }

  predicate CopiesAll(nodes: seq<Node>, rs: seq<LogRecord>, nulls: set<string>) {
    |nodes| == |rs| && forall i :: 0 <= i < |rs| ==> Copies(nodes[i], rs[i], nulls)
  }

  /** A reallocation without a result, or a replacement or transfer that names
      nothing: the replay releases nothing, the model ends a life. */
  function Lost(r: LogRecord): Option<Key> {
    match r.body
    case AllocBody(kind, ptr, newPtr) => if kind == Realloc && newPtr.None? then BlockOf(r, ptr) else None
    case ResourceBody(op, cls, id, related) =>
      if (op == Replace || op == Transfer) && !Names(related) then ResourceOf(r, cls, id) else None
    case _ => None
  }

  predicate Loses(r: LogRecord) {
    Lost(r).Some?
  }

  /** What a record ends the life of in the causal model. */
  function Ended(r: LogRecord): Option<Key> {
    if Loses(r) then Lost(r) else Given(r)
  }

  // ---------- Descriptor texts are distinct ----------

  lemma {:induction false} SignedTexts(m: nat, n: nat)
    requires "-" + Decimal(m) == "-" + Decimal(n)
    ensures m == n
  {
    assert ("-" + Decimal(m))[1..] == Decimal(m) && ("-" + Decimal(n))[1..] == Decimal(n);
    DecimalInjective(m, n);
  }

  lemma {:induction false} SignTells(m: nat, n: nat)
    ensures "-" + Decimal(m) != Decimal(n)
  {
    DecimalIsPlain(n);
    assert ("-" + Decimal(m))[0] == '-';
  }

  lemma {:induction false} TextsDistinguish(x: int, y: int)
    requires FdText(x) == FdText(y)
    ensures x == y
  {
    hide Decimal;
    if x < 0 && y < 0 {
      SignedTexts(-x, -y);
    } else if x < 0 {
      SignTells(-x, y);
    } else if y < 0 {
      SignTells(-y, x);
    } else {
      DecimalInjective(x, y);
    }
  }

  lemma {:induction false} FdKeysDistinguish(a: LogRecord, b: LogRecord, x: int, y: int)
    ensures FdOf(a, x) == FdOf(b, y) <==> a.pid == b.pid && x == y
  {
    if FdText(x) == FdText(y) {
      TextsDistinguish(x, y);
    }
  }

  /** The class of a key tells the kind of its records. */
  lemma {:induction false} ClassesTell(r: LogRecord, key: Key)
    requires OfKind(r) && (Taken(r) == Some(key) || Ended(r) == Some(key))
    ensures key.cls == "fd" <==> r.body.FdBody?
    ensures key.cls == "allocation" <==> r.body.AllocBody?
  {
    assert |"fd"| != |"allocation"|;
  }

  lemma {:induction false} FdEnds(birth: Node, death: Node, b: LogRecord, d: LogRecord, nulls: set<string>)
    requires Copies(birth, b, nulls) && Copies(death, d, nulls) && Taken(b).Some? && b.body.FdBody? && d.body.FdBody?
    ensures death.pid == birth.pid && Matches(birth, death) <==> Ended(d) == Taken(b)
  {
    hide FdText;
    FdKeysDistinguish(d, b, d.body.fd, b.body.fd);
  }

  lemma {:induction false} BlockEnds(birth: Node, death: Node, b: LogRecord, d: LogRecord, nulls: set<string>)
    requires Copies(birth, b, nulls) && Copies(death, d, nulls) && Taken(b).Some?
    requires b.body.AllocBody? && d.body.AllocBody?
    ensures death.pid == birth.pid && Matches(birth, death) <==> Ended(d) == Taken(b)
  {}

  lemma {:induction false} ResourceEnds(birth: Node, death: Node, b: LogRecord, d: LogRecord, nulls: set<string>)
    requires Copies(birth, b, nulls) && Copies(death, d, nulls) && Taken(b).Some?
    requires b.body.ResourceBody? && d.body.ResourceBody?
    ensures death.pid == birth.pid && Matches(birth, death) <==> Ended(d) == Taken(b)
  {}

  lemma {:induction false} KindsDiffer(birth: Node, death: Node, b: LogRecord, d: LogRecord, nulls: set<string>)
    requires Copies(birth, b, nulls) && Copies(death, d, nulls) && Taken(b).Some? && OfKind(b) && OfKind(d)
    requires birth.kind != death.kind
    ensures !Matches(birth, death) && Ended(d) != Taken(b)
  {
    hide Taken, Ended, FdText;
    ClassesTell(b, Taken(b).value);
    if Ended(d) == Taken(b) {
      ClassesTell(d, Taken(b).value);
      assert false;
    }
  }

  lemma {:induction false} MatchesIffEnded(birth: Node, death: Node, b: LogRecord, d: LogRecord, nulls: set<string>)
    requires Copies(birth, b, nulls) && Copies(death, d, nulls) && Taken(b).Some? && OfKind(b) && OfKind(d)
    ensures death.pid == birth.pid && Matches(birth, death) <==> Ended(d) == Taken(b)
  {
    hide Taken, Ended, Matches, Denotes;
    if birth.kind != death.kind {
      KindsDiffer(birth, death, b, d, nulls);
    } else if b.body.FdBody? {
      FdEnds(birth, death, b, d, nulls);
    } else if b.body.AllocBody? {
      BlockEnds(birth, death, b, d, nulls);
    } else {
      ResourceEnds(birth, death, b, d, nulls);
    }
  }

  /** What acquires is a birth to the model. */
  lemma {:induction false} TakenIsBirth(n: Node, r: LogRecord, nulls: set<string>)
    requires Copies(n, r, nulls) && Taken(r).Some?
    ensures IsBirth(n)
  {
    hide FdText;
  }

  lemma {:induction false} KeysHavePids(r: LogRecord)
    ensures Taken(r).Some? ==> Taken(r).value.pid == r.pid
    ensures Given(r).Some? ==> Given(r).value.pid == r.pid
    ensures Ended(r).Some? ==> Ended(r).value.pid == r.pid
    ensures !r.body.ExecBody? ==> Given(r) == if Loses(r) then None else Ended(r)
  {
    hide FdText;
  }

  lemma {:induction false} EndsIffEnded(nodes: seq<Node>, rs: seq<LogRecord>, nulls: set<string>, i: nat, j: nat)
    requires CopiesAll(nodes, rs, nulls) && Tracked(rs) && Ascending(rs) && i < |rs| && j < |rs| && Taken(rs[i]).Some?
    ensures Ends(nodes[i], nodes[j]) <==> i < j && Ended(rs[j]) == Taken(rs[i])
    ensures Ends(nodes[i], nodes[j]) ==> rs[j].pid == rs[i].pid && nodes[j].sequence == rs[j].sequence
  {
    hide Matches, Taken, Ended, Plain;
    assert Copies(nodes[i], rs[i], nulls) && Copies(nodes[j], rs[j], nulls);
    KeysHavePids(rs[i]);
    KeysHavePids(rs[j]);
    MatchesIffEnded(nodes[i], nodes[j], rs[i], rs[j], nulls);
  }

  /** Record r is the first after i that ends what i acquired; |rs| if none does. */
  ghost predicate FirstEnd(rs: seq<LogRecord>, i: nat, r: nat) {
    && i < r <= |rs| && (r < |rs| ==> Taken(rs[i]).Some? && Ended(rs[r]) == Taken(rs[i]))
    && forall j: nat :: i < j < r ==> Ended(rs[j]) != Taken(rs[i])
  }

  /** In an ascending stream the earliest death is the first in the stream. */
  lemma {:induction false} LifetimeEndIsFirst(nodes: seq<Node>, rs: seq<LogRecord>, nulls: set<string>, i: nat, r: nat)
    requires CopiesAll(nodes, rs, nulls) && Tracked(rs) && Ascending(rs) && |rs| < SIZE_MAX
    requires i < |rs| && Taken(rs[i]).Some? && IsLifetimeEnd(nodes, i, |nodes|, r)
    ensures FirstEnd(rs, i, if r == SIZE_MAX then |rs| else r) && (r != SIZE_MAX ==> r < |rs|)
  {
    hide CopiesAll, Tracked, Ends, Taken, Ended;
    assert |nodes| == |rs| by { SameLength(nodes, rs, nulls); }
    forall j: nat | j < |rs|
      ensures Ends(nodes[i], nodes[j]) <==> i < j && Ended(rs[j]) == Taken(rs[i])
      ensures Ends(nodes[i], nodes[j]) ==> rs[j].pid == rs[i].pid && nodes[j].sequence == rs[j].sequence
    {
      EndsIffEnded(nodes, rs, nulls, i, j);
    }
  }

  lemma {:induction false} SameLength(nodes: seq<Node>, rs: seq<LogRecord>, nulls: set<string>)
    requires CopiesAll(nodes, rs, nulls)
    ensures |nodes| == |rs|
  {}

  // ---------- The lifetime edge and the release ----------

  /** The edge's target is the stored release; without an edge the entry is live. */
  predicate EdgeIsRelease(rs: seq<LogRecord>, e: Entry, r: nat) {
    if r == SIZE_MAX then e.live else r < |rs| && !e.live && e.released == Some(SiteOf(rs[r]))
  }

  lemma {:induction false} OtherSite(rs: seq<LogRecord>, a: nat, b: nat)
    requires Ascending(rs) && a < |rs| && b < |rs| && rs[a].pid == rs[b].pid && SiteOf(rs[a]) == SiteOf(rs[b])
    ensures a == b
  {
    assert SiteOf(rs[a]).sequence == SiteOf(rs[b]).sequence;
  }

  /** The first release is the first end unless that loses the acquisition. */
  lemma {:induction false} EndOrRelease(rs: seq<LogRecord>, i: nat, r: nat)
    requires Tracked(rs) && i < |rs| && Taken(rs[i]).Some? && FirstEnd(rs, i, r)
    ensures r == |rs| ==> FirstClose(rs, i, |rs|) < 0
    ensures r < |rs| ==> (FirstClose(rs, i, |rs|) == r <==> !Loses(rs[r]))
    ensures r < |rs| && FirstClose(rs, i, |rs|) >= 0 ==> rs[FirstClose(rs, i, |rs|)].pid == rs[r].pid
  {
    hide FirstClose, Taken, Given, Ended, Loses;
    var close := FirstClose(rs, i, |rs|);
    KeysHavePids(rs[i]);
    if close >= 0 {
      KeysHavePids(rs[close]);
    }
    if r < |rs| {
      KeysHavePids(rs[r]);
    }
  }

  lemma {:induction false} EndInRange(rs: seq<LogRecord>, i: nat, r: nat)
    requires FirstEnd(rs, i, r)
    ensures i < r <= |rs| && (r < |rs| ==> Ended(rs[r]) == Taken(rs[i]))
  {}

  /** The lifetime edge of an acquisition goes to the record the replay stored
      as its release, and is missing when the entry is live, exactly when it does
      not go to a record that loses the acquisition. */
  lemma {:induction false} LifetimeEdgeIsRelease(nodes: seq<Node>, rs: seq<LogRecord>, nulls: set<string>, i: nat,
                                                 r: nat)
    requires CopiesAll(nodes, rs, nulls) && Tracked(rs) && Ascending(rs) && |rs| < SIZE_MAX
    requires i < |rs| && Taken(rs[i]).Some? && NotReopened(rs) && IsLifetimeEnd(nodes, i, |nodes|, r)
    ensures AllPlain(rs) && TakeCount(rs, i) < |At(rs, |rs|).entries|
    ensures var e := At(rs, |rs|).entries[TakeCount(rs, i)];
            e.key == Taken(rs[i]).value && e.acquired == SiteOf(rs[i])
            && (EdgeIsRelease(rs, e, r) <==> !(r < |rs| && Loses(rs[r])))
  {
    hide At, CopiesAll, Tracked, NotReopened, IsLifetimeEnd, FirstClose, FirstEnd, Loses, Taken, SiteOf, Ascending;
    TrackedArePlain(rs);
    ReplayAgrees(rs, i, |rs|);
    LifetimeEndIsFirst(nodes, rs, nulls, i, r);
    var end, close := if r == SIZE_MAX then |rs| else r, FirstClose(rs, i, |rs|);
    assert end <= |rs| by { EndInRange(rs, i, end); }
    EndOrRelease(rs, i, end);
    if end < |rs| && close >= 0 && SiteOf(rs[close]) == SiteOf(rs[end]) {
      OtherSite(rs, close, end);
    }
  }

  /** So on descriptors the two readings always agree. */
  lemma {:induction false} DescriptorEdgeIsRelease(nodes: seq<Node>, rs: seq<LogRecord>, nulls: set<string>, i: nat,
                                                   r: nat)
    requires CopiesAll(nodes, rs, nulls) && Tracked(rs) && Ascending(rs) && |rs| < SIZE_MAX
    requires i < |rs| && Taken(rs[i]).Some? && rs[i].body.FdBody? && NotReopened(rs)
    requires IsLifetimeEnd(nodes, i, |nodes|, r)
    ensures AllPlain(rs) && TakeCount(rs, i) < |At(rs, |rs|).entries|
            && EdgeIsRelease(rs, At(rs, |rs|).entries[TakeCount(rs, i)], r)
  {
    hide At, CopiesAll, NotReopened, IsLifetimeEnd, FirstEnd, EdgeIsRelease, SiteOf, Ascending, Taken, Ended, Loses;
    LifetimeEdgeIsRelease(nodes, rs, nulls, i, r);
    LifetimeEndIsFirst(nodes, rs, nulls, i, r);
    if r < |rs| {
      EndInRange(rs, i, r);
      DescriptorsAreKept(rs[i], rs[r]);
    }
  }

  lemma {:induction false} DescriptorsAreKept(open: LogRecord, end: LogRecord)
    requires open.body.FdBody? && Taken(open).Some? && OfKind(end) && OfKind(open) && Ended(end) == Taken(open)
    ensures !Loses(end)
  {
    hide Taken, Given, FdText;
    ClassesTell(open, Taken(open).value);
    ClassesTell(end, Taken(open).value);
  }

  // ---------- Leaks ----------

  lemma {:induction false} LeaksAreLive(entries: seq<Entry>, f: Finding)
    ensures f in Leaks(entries) <==> exists e :: e in entries && e.live && LeakOf(e) == f
  {
    if entries != [] {
      LeaksAreLive(entries[..|entries| - 1], f);
      assert entries == entries[..|entries| - 1] + [entries[|entries| - 1]];
    }
  }

  lemma {:induction false} LeakFinished(m: Model, f: Finding)
    requires f.kind == Leak && !f.pending && forall g :: g in m.findings ==> g.kind != Leak
    ensures f in Finish(m).findings <==> f in Leaks(m.entries)
  {
    var all, after := m.findings + Leaks(m.entries), Finish(m).findings;
    if f in after {
      var k :| 0 <= k < |after| && after[k] == f;
      assert all[k].kind == Leak && k >= |m.findings|;
      LeaksSettled(m.entries);
      assert all[k] in Leaks(m.entries);
    }
    if f in Leaks(m.entries) {
      var k :| 0 <= k < |Leaks(m.entries)| && Leaks(m.entries)[k] == f;
      assert after[|m.findings| + k] == f;
    }
  }

  lemma {:induction false} LeaksSettled(entries: seq<Entry>)
    ensures forall g :: g in Leaks(entries) ==> !g.pending
  {
    if entries != [] {
      LeaksSettled(entries[..|entries| - 1]);
    }
  }

  lemma {:induction false} NoLeakReported(rs: seq<LogRecord>, k: nat)
    requires k <= |rs|
    ensures forall f :: f in AllReports(rs, k) ==> f.kind != Leak
  {
    hide Reports;
    if k > 0 {
      NoLeakReported(rs, k - 1);
      ReportsOfRecord(rs, k - 1);
    }
  }

  function LeakOfTake(rs: seq<LogRecord>, i: nat): Finding
    requires i < |rs| && Taken(rs[i]).Some?
  {
    Finding(Leak, Taken(rs[i]).value, OriginOf(rs[i]), SiteOf(rs[i]).(ns := 0, nsKnown := false), None, false)
  }

  /** Two acquisitions with one leak finding are one. */
  lemma {:induction false} LeakNamesTake(rs: seq<LogRecord>, i: nat, j: nat)
    requires Ascending(rs) && i < |rs| && j < |rs| && Taken(rs[i]).Some? && Taken(rs[j]).Some?
    requires LeakOfTake(rs, i) == LeakOfTake(rs, j)
    ensures i == j
  {
    hide Taken;
    KeysHavePids(rs[i]);
    KeysHavePids(rs[j]);
    assert LeakOfTake(rs, i).site.sequence == LeakOfTake(rs, j).site.sequence;
  }

  lemma {:induction false} LeakIsOfEntry(rs: seq<LogRecord>, i: nat, k: nat)
    requires i < k <= |rs| && Taken(rs[i]).Some?
    ensures LeakOf(EntryOf(rs, i, k)) == LeakOfTake(rs, i)
  {}

  /** Finishing reports an acquisition as a leak exactly when nothing ended it. */
  lemma {:induction false} LeakIffNotEnded(rs: seq<LogRecord>, i: nat)
    requires AllPlain(rs) && Ascending(rs) && i < |rs| && Taken(rs[i]).Some?
    ensures LeakOfTake(rs, i) in Finish(At(rs, |rs|)).findings <==> EndOf(rs, i, |rs|) < 0
  {
    hide At, EndOf, Ascending, Finish, Taken, TableOf, AllReports, LeakOf, Leaks, LeakOfTake, SiteOf;
    var n, m, f := |rs|, At(rs, |rs|), LeakOfTake(rs, i);
    ReplayIsHistory(rs, n);
    NoLeakReported(rs, n);
    assert f.kind == Leak && !f.pending by { LeakIsLeak(rs, i); }
    LeakFinished(m, f);
    LeaksAreLive(m.entries, f);
    AtTake(rs, m.entries, n, n, i);
    LeakIsOfEntry(rs, i, n);
    if EndOf(rs, i, n) < 0 {
      assert m.entries[TakeCount(rs, i)] in m.entries;
    }
    if f in Leaks(m.entries) {
      var y: nat :| y < |m.entries| && m.entries[y].live && LeakOf(m.entries[y]) == f;
      var j := EntryIs(rs, m.entries, n, n, y);
      LeakIsOfEntry(rs, j, n);
      LeakNamesTake(rs, i, j);
    }
  }

  lemma {:induction false} LeakIsLeak(rs: seq<LogRecord>, i: nat)
    requires i < |rs| && Taken(rs[i]).Some?
    ensures LeakOfTake(rs, i).kind == Leak && !LeakOfTake(rs, i).pending
  {}

  /** An acquisition without a lifetime edge is reported as a leak; one with an
      edge is not, unless the edge goes to a record that loses the acquisition
      and nothing releases it afterwards. */
  lemma {:induction false} NoLifetimeEdgeIffLeak(nodes: seq<Node>, rs: seq<LogRecord>, nulls: set<string>, i: nat,
                                                 r: nat)
    requires CopiesAll(nodes, rs, nulls) && Tracked(rs) && Ascending(rs) && |rs| < SIZE_MAX
    requires i < |rs| && Taken(rs[i]).Some? && NotReopened(rs) && IsLifetimeEnd(nodes, i, |nodes|, r)
    ensures AllPlain(rs)
    ensures (r == SIZE_MAX <==> LeakOfTake(rs, i) in Finish(At(rs, |rs|)).findings)
            <==> !(r < |rs| && Loses(rs[r]) && FirstClose(rs, i, |rs|) < 0)
    ensures rs[i].body.FdBody? ==> (r == SIZE_MAX <==> LeakOfTake(rs, i) in Finish(At(rs, |rs|)).findings)
  {
    hide At, CopiesAll, NotReopened, IsLifetimeEnd, FirstClose, FirstEnd, Loses, Taken, Ended, Finish, EndOf;
    TrackedArePlain(rs);
    LeakIffNotEnded(rs, i);
    EndIsFirstClose(rs, i, |rs|);
    LifetimeEndIsFirst(nodes, rs, nulls, i, r);
    var end := if r == SIZE_MAX then |rs| else r;
    EndInRange(rs, i, end);
    EndOrRelease(rs, i, end);
    if end < |rs| && rs[i].body.FdBody? {
      DescriptorsAreKept(rs[i], rs[end]);
    }
  }

  /** A block given to a reallocation without a result: the model ends its life
      there, the replay keeps it and reports it as a leak. */
  lemma {:induction false} LostBlockDisagrees(nodes: seq<Node>, rs: seq<LogRecord>, nulls: set<string>, p: string)
    requires |rs| == 2 && CopiesAll(nodes, rs, nulls) && rs[0].pid == rs[1].pid && rs[0].sequence < rs[1].sequence
    requires rs[0].body == AllocBody(Alloc, Some(p), None) && rs[1].body == AllocBody(Realloc, Some(p), None)
    ensures IsLifetimeEnd(nodes, 0, 2, 1)
    ensures AllPlain(rs) && At(rs, 2).findings == [] && LeakOfTake(rs, 0) in Finish(At(rs, 2)).findings
  {
    hide At, Finish, AllReports;
    ReplayIsHistory(rs, 2);
    LostBlockHistory(rs, p);
    LeakIffNotEnded(rs, 0);
    EndsIffEnded(nodes, rs, nulls, 0, 0);
    EndsIffEnded(nodes, rs, nulls, 0, 1);
  }

  lemma {:induction false} LostBlockHistory(rs: seq<LogRecord>, p: string)
    requires |rs| == 2 && rs[0].pid == rs[1].pid
    requires rs[0].body == AllocBody(Alloc, Some(p), None) && rs[1].body == AllocBody(Realloc, Some(p), None)
    ensures AllReports(rs, 2) == [] && EndOf(rs, 0, 2) < 0
  {
    hide Told, Duplicate, Unless, EndOf;
    var key := Key(rs[0].pid, "allocation", p);
    LiveAtFirst(rs, key);
    EndNext(rs, 0, 1);
    NotEndedYet(rs, 0);
    NothingToReport(rs, 0, key);
    NothingToReport(rs, 1, key);
    assert AllReports(rs, 0) == [] && AllReports(rs, 1) == [] + [];
  }

  lemma {:induction false} LiveAtFirst(rs: seq<LogRecord>, key: Key)
    requires |rs| == 2 && Takes(rs[0], key) && Given(rs[0]).None?
    ensures LiveBetween(rs, 0, key) == [] && Live(rs, 1, key) == [0]
  {
    assert Live(rs, 0, key) == [];
  }

  lemma {:induction false} NothingToReport(rs: seq<LogRecord>, k: nat, key: Key)
    requires k < |rs|
    ensures LiveBetween(rs, k, key) == [] ==> Duplicate(rs, k, key) == []
    ensures Live(rs, k, key) != [] ==> Unless(rs, k, key, BadReplace) == []
  {
    hide Told, Live, LiveBetween;
  }
}
