/** What each health counter counts, told from the records of the stream. */
module HealthCounts {
  import opened Events
  import opened HealthSpec
  import opened HealthTheorems

  // ---------- One record after others of its producer ----------

  datatype Flag = Observed | Completed | FailedWrite | Repeated | FellBack | Miscounted | TooLate

  function NonCompletions(s: seq<HealthRecord>): (n: nat)
    ensures n <= |s|
  {
    if s == [] then 0
    else NonCompletions(s[..|s| - 1]) + (if s[|s| - 1].kind == CompleteRecord then 0 else 1)
  }

  /** What is wrong with r, or noted of it, after the records s of its producer. */
  ghost predicate FlaggedAfter(s: seq<HealthRecord>, r: HealthRecord, flag: Flag) {
    match flag
    case Observed => true
    case Completed => r.kind == CompleteRecord
    case FailedWrite => r.kind == CompleteRecord && r.writeFailed
    case Repeated =>
      r.sequence != 0 && (exists q :: q in s && q.sequence == r.sequence)
      && forall q :: q in s ==> q.sequence <= r.sequence
    case FellBack => r.sequence != 0 && exists q :: q in s && q.sequence > r.sequence
    case Miscounted => r.kind == CompleteRecord && r.attempted != NonCompletions(s)
    case TooLate => exists q :: q in s && q.kind == CompleteRecord
  }

  function Count(h: Health, flag: Flag): nat {
    match flag
    case Observed => h.observed
    case Completed => h.completions
    case FailedWrite => h.writeFailures
    case Repeated => h.duplicates
    case FellBack => h.nonmonotonic
    case Miscounted => h.mismatches
    case TooLate => h.afterCompletion
  }

  predicate FlaggedBy(p: Producer, r: HealthRecord, flag: Flag) {
    match flag
    case Observed => true
    case Completed => IsCompletion(r)
    case FailedWrite => IsWriteFailure(r)
    case Repeated => IsDuplicate(p, r)
    case FellBack => IsNonmonotonic(p, r)
    case Miscounted => IsMismatch(p, r)
    case TooLate => p.completions > 0
  }

  lemma {:induction false} RowCounts(key: ProducerKey, s: seq<HealthRecord>)
    ensures Row(key, s).observed == |s| && Row(key, s).observed - Row(key, s).completions == NonCompletions(s)
    ensures Row(key, s).completions > 0 <==> exists q :: q in s && q.kind == CompleteRecord
  {
    hide IsDuplicate, IsNonmonotonic, IsMismatch;
    if s != [] {
      var n := |s| - 1;
      RowCounts(key, s[..n]);
      assert forall q :: q in s <==> q in s[..n] || q == s[n];
    }
  }

  lemma {:induction false} LargestOfRow(key: ProducerKey, s: seq<HealthRecord>)
    ensures forall q :: q in s ==> q.sequence <= Row(key, s).lastSequence
    ensures Row(key, s).lastSequence != 0 ==> exists q :: q in s && q.sequence == Row(key, s).lastSequence
  {
    hide Row;
    LastIsLargest(key, s);
    if Row(key, s).lastSequence != 0 {
      var i :| 0 <= i < |s| && s[i].sequence == Row(key, s).lastSequence;
      assert s[i] in s;
    }
  }

  /** The row of a producer judges its next record by the records before. */
  lemma {:induction false} RowJudges(key: ProducerKey, s: seq<HealthRecord>, r: HealthRecord, flag: Flag)
    ensures FlaggedBy(Row(key, s), r, flag) <==> FlaggedAfter(s, r, flag)
  {
    hide Row, NonCompletions;
    RowCounts(key, s);
    LargestOfRow(key, s);
  }

  // ---------- The totals ----------

  /** The records of the same producer before record i. */
  function Earlier(rs: seq<HealthRecord>, i: nat, limit: nat): seq<HealthRecord>
    requires i < |rs| && rs[i].runId.Some?
  {
    Of(rs[..i], KeyOf(rs[i]), limit)
  }

  ghost predicate FlaggedAt(rs: seq<HealthRecord>, i: nat, limit: nat, flag: Flag) {
    i < |rs| && ValidRunId(rs[i], limit) && FlaggedAfter(Earlier(rs, i, limit), rs[i], flag)
  }

  ghost function Places(rs: seq<HealthRecord>, limit: nat, flag: Flag): set<nat> {
    set i: nat | i < |rs| && FlaggedAt(rs, i, limit, flag)
  }

  ghost function InvalidPlaces(rs: seq<HealthRecord>, limit: nat): set<nat> {
    set i: nat | i < |rs| && !ValidRunId(rs[i], limit)
  }

  lemma {:induction false} FlagStays(rs: seq<HealthRecord>, r: HealthRecord, i: nat, limit: nat, flag: Flag)
    requires i < |rs|
    ensures FlaggedAt(rs + [r], i, limit, flag) <==> FlaggedAt(rs, i, limit, flag)
  {
    assert (rs + [r])[..i] == rs[..i] && (rs + [r])[i] == rs[i];
  }

  lemma {:induction false} InPlaces(rs: seq<HealthRecord>, i: nat, limit: nat, flag: Flag)
    ensures i in Places(rs, limit, flag) <==> i < |rs| && FlaggedAt(rs, i, limit, flag)
  {
    hide FlaggedAt;
  }

  lemma {:induction false} PlacesNext(rs: seq<HealthRecord>, r: HealthRecord, limit: nat, flag: Flag)
    ensures |Places(rs + [r], limit, flag)|
            == |Places(rs, limit, flag)| + (if FlaggedAt(rs + [r], |rs|, limit, flag) then 1 else 0)
  {
    hide FlaggedAt, Places;
    var added := if FlaggedAt(rs + [r], |rs|, limit, flag) then {|rs|} else {};
    forall i: nat
      ensures i in Places(rs + [r], limit, flag) <==> i in Places(rs, limit, flag) || i in added
      ensures i in added ==> i !in Places(rs, limit, flag)
    {
      InPlaces(rs + [r], i, limit, flag);
      InPlaces(rs, i, limit, flag);
      if i < |rs| {
        FlagStays(rs, r, i, limit, flag);
      }
    }
    assert Places(rs + [r], limit, flag) == Places(rs, limit, flag) + added;
  }

  lemma {:induction false} InvalidNext(rs: seq<HealthRecord>, r: HealthRecord, limit: nat)
    ensures |InvalidPlaces(rs + [r], limit)|
            == |InvalidPlaces(rs, limit)| + (if ValidRunId(r, limit) then 0 else 1)
  {
    assert InvalidPlaces(rs + [r], limit)
           == InvalidPlaces(rs, limit) + (if ValidRunId(r, limit) then {} else {|rs|});
  }

  lemma {:induction false} CountNext(h: Health, r: HealthRecord, limit: nat, flag: Flag)
    ensures ValidRunId(r, limit) ==>
              Count(Observe(h, r, limit), flag)
              == Count(h, flag)
                 + (if FlaggedBy(WithRow(h.producers, KeyOf(r))[Find(h.producers, KeyOf(r))], r, flag) then 1 else 0)
    ensures !ValidRunId(r, limit) ==> Count(Observe(h, r, limit), flag) == Count(h, flag)
    ensures Observe(h, r, limit).invalidRunIds == h.invalidRunIds + (if ValidRunId(r, limit) then 0 else 1)
  {
    hide IsDuplicate, IsNonmonotonic, IsMismatch, Find, WithRow, ObserveBy;
  }

  /** Every total is the number of records it is about; a record is judged by
      the earlier records of its producer. */
  lemma {:induction false} TotalsAreCounts(rs: seq<HealthRecord>, limit: nat, flag: Flag)
    ensures Count(ObserveAll(rs, limit), flag) == |Places(rs, limit, flag)|
    ensures ObserveAll(rs, limit).invalidRunIds == |InvalidPlaces(rs, limit)|
  {
    hide FlaggedAt, Places, InvalidPlaces, Count, Observe, FlaggedBy;
    if rs == [] {
      NothingCounted(limit, flag);
    } else {
      var n := |rs| - 1;
      var init, r := rs[..n], rs[n];
      assert init + [r] == rs;
      TotalsAreCounts(init, limit, flag);
      PlacesNext(init, r, limit, flag);
      InvalidNext(init, r, limit);
      CountNext(ObserveAll(init, limit), r, limit, flag);
      LastFlagged(init, r, limit, flag);
    }
  }

  lemma {:induction false} NothingCounted(limit: nat, flag: Flag)
    ensures Count(ObserveAll([], limit), flag) == |Places([], limit, flag)|
    ensures ObserveAll([], limit).invalidRunIds == |InvalidPlaces([], limit)|
  {
    assert Places([], limit, flag) == {} && InvalidPlaces([], limit) == {};
  }

  lemma {:induction false} LastFlagged(rs: seq<HealthRecord>, r: HealthRecord, limit: nat, flag: Flag)
    ensures FlaggedAt(rs + [r], |rs|, limit, flag)
            <==> ValidRunId(r, limit)
                 && var ps := ObserveAll(rs, limit).producers;
                    FlaggedBy(WithRow(ps, KeyOf(r))[Find(ps, KeyOf(r))], r, flag)
  {
    hide FlaggedBy, FlaggedAfter, Row, TableOk, WithRow;
    assert (rs + [r])[..|rs|] == rs && (rs + [r])[|rs|] == r;
    if ValidRunId(r, limit) {
      var ps := ObserveAll(rs, limit).producers;
      TableInvariant(rs, limit);
      RowToExtend(rs, ps, KeyOf(r), limit);
      RowJudges(KeyOf(r), Of(rs, KeyOf(r), limit), r, flag);
    }
  }

  // ---------- The last failure and the last exec ----------

  ghost predicate LastFailureAt(rs: seq<HealthRecord>, i: nat, limit: nat) {
    FlaggedAt(rs, i, limit, FailedWrite) && forall j :: i < j < |rs| ==> !FlaggedAt(rs, j, limit, FailedWrite)
  }

  /** The error number kept is that of the last failed write. */
  lemma {:induction false} ErrnoIsLast(rs: seq<HealthRecord>, limit: nat)
    ensures var kept := ObserveAll(rs, limit).lastWriteErrno;
            (kept == 0 && forall i: nat :: !FlaggedAt(rs, i, limit, FailedWrite))
            || exists i: nat :: LastFailureAt(rs, i, limit) && rs[i].writeErrno == kept
  {
    hide IsDuplicate, IsNonmonotonic, IsMismatch, Find, WithRow, ObserveBy, Of;
    if rs != [] {
      var n := |rs| - 1;
      var init, r := rs[..n], rs[n];
      assert init + [r] == rs;
      ErrnoIsLast(init, limit);
      forall i: nat | i < n
        ensures FlaggedAt(rs, i, limit, FailedWrite) <==> FlaggedAt(init, i, limit, FailedWrite)
      {
        FlagStays(init, r, i, limit, FailedWrite);
      }
      if FlaggedAt(rs, n, limit, FailedWrite) {
        assert LastFailureAt(rs, n, limit);
      } else if i: nat :|
        LastFailureAt(init, i, limit) && init[i].writeErrno == ObserveAll(init, limit).lastWriteErrno
      {
        assert LastFailureAt(rs, i, limit) && rs[i].writeErrno == init[i].writeErrno;
      }
    }
  }

  ghost predicate ExecOpen(s: seq<HealthRecord>, i: nat) {
    && i < |s| && s[i].kind == ExecRecord
    && forall j :: i < j < |s| ==> s[j].kind != ExecFailRecord && s[j].kind != CompleteRecord
  }

  /** An exec is pending that no failed exec or completion of its producer follows. */
  lemma {:induction false} PendingExecIsOpen(key: ProducerKey, s: seq<HealthRecord>)
    ensures Row(key, s).pendingExec <==> exists i: nat :: ExecOpen(s, i)
  {
    hide IsDuplicate, IsNonmonotonic, IsMismatch, IsWriteFailure;
    if s != [] {
      var n := |s| - 1;
      var init := s[..n];
      PendingExecIsOpen(key, init);
      if s[n].kind == ExecRecord {
        assert ExecOpen(s, n);
      } else if i: nat :| ExecOpen(init, i) {
        assert s[n].kind != ExecFailRecord && s[n].kind != CompleteRecord ==> ExecOpen(s, i);
      }
      if i: nat :| ExecOpen(s, i) {
        assert i < n ==> ExecOpen(init, i);
      }
    }
  }

  // ---------- Unfinished producers ----------

  /** One completion, without a failed write, that counts the records before it. */
  ghost predicate EndsOnce(s: seq<HealthRecord>) {
    && NonCompletions(s) + 1 == |s|
    && forall i :: 0 <= i < |s| ==> !FlaggedAfter(s[..i], s[i], FailedWrite) && !FlaggedAfter(s[..i], s[i], Miscounted)
  }

  ghost predicate NoneFlagged(s: seq<HealthRecord>, flag: Flag) {
    forall i :: 0 <= i < |s| ==> !FlaggedAfter(s[..i], s[i], flag)
  }

  lemma {:induction false} NoneFlaggedNext(s: seq<HealthRecord>, r: HealthRecord, flag: Flag)
    ensures NoneFlagged(s + [r], flag) <==> NoneFlagged(s, flag) && !FlaggedAfter(s, r, flag)
  {
    hide FlaggedAfter;
    var all := s + [r];
    forall i | 0 <= i < |s|
      ensures all[..i] == s[..i] && all[i] == s[i]
    {}
    assert all[..|s|] == s && all[|s|] == r;
  }

  lemma {:induction false} RowTroublesNoted(key: ProducerKey, s: seq<HealthRecord>)
    ensures Row(key, s).writeFailed <==> !NoneFlagged(s, FailedWrite)
    ensures Row(key, s).mismatches > 0 <==> !NoneFlagged(s, Miscounted)
  {
    hide FlaggedAfter, NoneFlagged, FlaggedBy, IsMismatch, IsWriteFailure;
    if s == [] {
      assert NoneFlagged([], FailedWrite) && NoneFlagged([], Miscounted) by { NothingFlagged(); }
    } else {
      var n := |s| - 1;
      assert s[..n] + [s[n]] == s;
      RowTroublesNoted(key, s[..n]);
      NoneFlaggedNext(s[..n], s[n], FailedWrite);
      NoneFlaggedNext(s[..n], s[n], Miscounted);
      RowJudges(key, s[..n], s[n], FailedWrite);
      RowJudges(key, s[..n], s[n], Miscounted);
      FlagsNamed(Row(key, s[..n]), s[n]);
    }
  }

  lemma {:induction false} NothingFlagged()
    ensures NoneFlagged([], FailedWrite) && NoneFlagged([], Miscounted)
  {}

  lemma {:induction false} FlagsNamed(p: Producer, r: HealthRecord)
    ensures FlaggedBy(p, r, FailedWrite) <==> IsWriteFailure(r)
    ensures FlaggedBy(p, r, Miscounted) <==> IsMismatch(p, r)
  {}

  lemma {:induction false} FinishedIffEndsOnce(key: ProducerKey, s: seq<HealthRecord>)
    ensures Finished(Row(key, s)) <==> EndsOnce(s)
  {
    hide Row, FlaggedAfter;
    RowCounts(key, s);
    RowTroublesNoted(key, s);
  }

  ghost function KeysOf(ps: seq<Producer>): set<ProducerKey> {
    set i | 0 <= i < |ps| && !Finished(ps[i]) :: ps[i].key
  }

  lemma {:induction false} KeyOfLast(ps: seq<Producer>, key: ProducerKey)
    requires ps != []
    ensures key in KeysOf(ps)
            <==> key in KeysOf(ps[..|ps| - 1]) || (!Finished(ps[|ps| - 1]) && ps[|ps| - 1].key == key)
  {
    hide Finished;
    var init := ps[..|ps| - 1];
    if key in KeysOf(ps) {
      var i :| 0 <= i < |ps| && !Finished(ps[i]) && ps[i].key == key;
      assert i < |init| ==> init[i] == ps[i];
    }
    if key in KeysOf(init) {
      var i :| 0 <= i < |init| && !Finished(init[i]) && init[i].key == key;
      assert ps[i] == init[i];
    }
  }

  lemma {:induction false} KeysOfRows(ps: seq<Producer>, key: ProducerKey)
    ensures key in KeysOf(ps) ==> exists i :: 0 <= i < |ps| && ps[i].key == key
  {}

  lemma {:induction false} UnfinishedCounts(ps: seq<Producer>)
    requires forall i, j :: 0 <= i < j < |ps| ==> ps[i].key != ps[j].key
    ensures Unfinished(ps) == |KeysOf(ps)|
  {
    hide KeysOf, Finished;
    if ps == [] {
      assert KeysOf(ps) == {} by { KeysOfNone(); }
    } else {
      var n := |ps| - 1;
      var added := if Finished(ps[n]) then {} else {ps[n].key};
      UnfinishedCounts(ps[..n]);
      forall key
        ensures key in KeysOf(ps) <==> key in KeysOf(ps[..n]) || key in added
      {
        KeyOfLast(ps, key);
      }
      assert KeysOf(ps) == KeysOf(ps[..n]) + added;
      KeysOfRows(ps[..n], ps[n].key);
      assert KeysOf(ps[..n]) !! added;
    }
  }

  lemma {:induction false} KeysOfNone()
    ensures KeysOf([]) == {}
  {}

  /** The producers of the stream whose log does not end as it should. */
  ghost function UnfinishedKeys(rs: seq<HealthRecord>, limit: nat): set<ProducerKey> {
    set i: nat | i < |rs| && ValidRunId(rs[i], limit) && !EndsOnce(Of(rs, KeyOf(rs[i]), limit)) :: KeyOf(rs[i])
  }

  /** The number of incomplete producers is the number of those. */
  lemma {:induction false} UnfinishedAreCounted(rs: seq<HealthRecord>, limit: nat)
    ensures Unfinished(ObserveAll(rs, limit).producers) == |UnfinishedKeys(rs, limit)|
  {
    hide ObserveAll, EndsOnce, Finished, Row;
    var ps := ObserveAll(rs, limit).producers;
    TableInvariant(rs, limit);
    UnfinishedCounts(ps);
    forall key
      ensures key in KeysOf(ps) <==> key in UnfinishedKeys(rs, limit)
    {
      FinishedIffEndsOnce(key, Of(rs, key, limit));
      if key in KeysOf(ps) {
        var i :| 0 <= i < |ps| && !Finished(ps[i]) && ps[i].key == key;
        var j := OfIsFrom(rs, key, limit);
      }
      if key in UnfinishedKeys(rs, limit) {
        var j: nat :| j < |rs| && ValidRunId(rs[j], limit) && !EndsOnce(Of(rs, KeyOf(rs[j]), limit))
                      && KeyOf(rs[j]) == key;
        assert rs[j] in rs;
        assert HasRow(ps, key);
      }
    }
    assert KeysOf(ps) == UnfinishedKeys(rs, limit);
  }
}
