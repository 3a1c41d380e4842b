/** The one-pass verdict is exact. */
module HealthTheorems {
  import opened HealthSpec

  // ---------- One producer ----------

  function Row(key: ProducerKey, s: seq<HealthRecord>): Producer {
    if s == [] then NewProducer(key) else ObserveBy(Row(key, s[..|s| - 1]), s[|s| - 1])
  }

  lemma {:induction false} CompletionsSeen(key: ProducerKey, s: seq<HealthRecord>)
    ensures Row(key, s).key == key && Row(key, s).observed == |s|
    ensures Row(key, s).completions == 0 <==> NoneCompletes(s)
    ensures Row(key, s).completions == 0 ==> Row(key, s).mismatches == 0 && !Row(key, s).writeFailed
  {
    if s != [] {
      var before := s[..|s| - 1];
      CompletionsSeen(key, before);
      assert forall i :: 0 <= i < |before| ==> s[i] == before[i];
    }
  }

  lemma {:induction false} NothingAfterCompletion(key: ProducerKey, s: seq<HealthRecord>)
    ensures Row(key, s).afterCompletion == 0 <==> s == [] || NoneCompletes(s[..|s| - 1])
  {
    if s != [] {
      var before := s[..|s| - 1];
      NothingAfterCompletion(key, before);
      CompletionsSeen(key, before);
      assert before != [] && NoneCompletes(before) ==> NoneCompletes(before[..|before| - 1]);
    }
  }

  lemma {:induction false} LastIsLargest(key: ProducerKey, s: seq<HealthRecord>)
    ensures forall i :: 0 <= i < |s| ==> s[i].sequence <= Row(key, s).lastSequence
    ensures Row(key, s).lastSequence != 0 ==> exists i :: 0 <= i < |s| && s[i].sequence == Row(key, s).lastSequence
  {
    if s != [] {
      var before := s[..|s| - 1];
      LastIsLargest(key, before);
      assert forall i :: 0 <= i < |before| ==> s[i] == before[i];
      var last := Row(key, before).lastSequence;
      if s[|s| - 1].sequence <= last && last != 0 {
        var i :| 0 <= i < |before| && before[i].sequence == last;
        assert s[i].sequence == last;
      }
    }
  }

  lemma {:induction false} RisingIffUnflagged(key: ProducerKey, s: seq<HealthRecord>)
    ensures Row(key, s).duplicates == 0 && Row(key, s).nonmonotonic == 0 <==> Rising(s)
  {
    if s != [] {
      var before, last := s[..|s| - 1], s[|s| - 1];
      RisingIffUnflagged(key, before);
      LastIsLargest(key, before);
      assert forall i :: 0 <= i < |before| ==> s[i] == before[i];
      var high := Row(key, before).lastSequence;
      if last.sequence != 0 && last.sequence <= high {
        var i :| 0 <= i < |before| && before[i].sequence == high;
        assert s[i].sequence == high && s[|s| - 1].sequence <= high;
      }
    }
  }

  ghost predicate Unblemished(p: Producer) {
    p.duplicates == 0 && p.nonmonotonic == 0 && p.mismatches == 0 && p.afterCompletion == 0 && !p.writeFailed
  }

  lemma {:induction false} RowDecides(key: ProducerKey, s: seq<HealthRecord>)
    ensures Finished(Row(key, s)) && Unblemished(Row(key, s)) <==> CompleteLog(s)
  {
    NothingAfterCompletion(key, s);
    RisingIffUnflagged(key, s);
    if s != [] {
      CompletionsSeen(key, s[..|s| - 1]);
    }
  }

  // ---------- The table ----------

  ghost predicate RowOk(rs: seq<HealthRecord>, p: Producer, limit: nat) {
    Of(rs, p.key, limit) != [] && p == Row(p.key, Of(rs, p.key, limit))
  }

  ghost predicate HasRow(ps: seq<Producer>, key: ProducerKey) {
    exists i :: 0 <= i < |ps| && ps[i].key == key
  }

  ghost predicate TableOk(rs: seq<HealthRecord>, ps: seq<Producer>, limit: nat) {
    && (forall i :: 0 <= i < |ps| ==> RowOk(rs, ps[i], limit))
    && (forall i, j :: 0 <= i < j < |ps| ==> ps[i].key != ps[j].key)
    && (forall r :: r in rs && ValidRunId(r, limit) ==> HasRow(ps, KeyOf(r)))
  }

  lemma {:induction false} NoRowNoRecords(rs: seq<HealthRecord>, key: ProducerKey, limit: nat)
    requires forall r :: r in rs && ValidRunId(r, limit) ==> KeyOf(r) != key
    ensures Of(rs, key, limit) == []
  {
    if rs != [] {
      NoRowNoRecords(rs[..|rs| - 1], key, limit);
    }
  }

  lemma {:induction false} OfNext(rs: seq<HealthRecord>, r: HealthRecord, key: ProducerKey, limit: nat)
    ensures Of(rs + [r], key, limit)
            == if ValidRunId(r, limit) && KeyOf(r) == key then Of(rs, key, limit) + [r] else Of(rs, key, limit)
  {
    assert (rs + [r])[..|rs|] == rs;
  }

  lemma {:induction false} RowNext(key: ProducerKey, s: seq<HealthRecord>, r: HealthRecord)
    ensures Row(key, s + [r]) == ObserveBy(Row(key, s), r)
  {
    assert (s + [r])[..|s|] == s;
  }

  /** A row after one more record of producer `key`, which stands in row i. */
  lemma {:induction false} RowOkNext(rs: seq<HealthRecord>, p: Producer, r: HealthRecord, limit: nat)
    requires ValidRunId(r, limit) && p.key == KeyOf(r)
    requires p == Row(p.key, Of(rs, p.key, limit))
    ensures RowOk(rs + [r], ObserveBy(p, r), limit)
  {
    OfNext(rs, r, p.key, limit);
    RowNext(p.key, Of(rs, p.key, limit), r);
  }

  lemma {:induction false} OtherRowOk(rs: seq<HealthRecord>, p: Producer, r: HealthRecord, limit: nat)
    requires RowOk(rs, p, limit) && (ValidRunId(r, limit) ==> p.key != KeyOf(r))
    ensures RowOk(rs + [r], p, limit)
  {
    OfNext(rs, r, p.key, limit);
  }

  lemma {:induction false} RowToExtend(rs: seq<HealthRecord>, ps: seq<Producer>, key: ProducerKey, limit: nat)
    requires TableOk(rs, ps, limit)
    ensures var p := WithRow(ps, key)[Find(ps, key)]; p.key == key && p == Row(key, Of(rs, key, limit))
  {
    var i := Find(ps, key);
    if i == |ps| {
      assert forall q :: q in rs && ValidRunId(q, limit) ==> HasRow(ps, KeyOf(q));
      NoRowNoRecords(rs, key, limit);
    } else {
      assert RowOk(rs, ps[i], limit);
    }
  }

  lemma {:induction false} KeysNext(rs: seq<HealthRecord>, ps: seq<Producer>, after: seq<Producer>, r: HealthRecord,
                                    limit: nat)
    requires ValidRunId(r, limit) && |ps| <= |after| && HasRow(after, KeyOf(r))
    requires forall k :: 0 <= k < |ps| ==> after[k].key == ps[k].key
    requires forall q :: q in rs && ValidRunId(q, limit) ==> HasRow(ps, KeyOf(q))
    ensures forall q :: q in rs + [r] && ValidRunId(q, limit) ==> HasRow(after, KeyOf(q))
  {
    forall q | q in rs && ValidRunId(q, limit)
      ensures HasRow(after, KeyOf(q))
    {
      var k :| 0 <= k < |ps| && ps[k].key == KeyOf(q);
      assert after[k].key == KeyOf(q);
    }
  }

  lemma {:induction false} TableNext(rs: seq<HealthRecord>, ps: seq<Producer>, r: HealthRecord, limit: nat)
    requires TableOk(rs, ps, limit) && ValidRunId(r, limit)
    ensures var rows, i := WithRow(ps, KeyOf(r)), Find(ps, KeyOf(r));
            TableOk(rs + [r], rows[i := ObserveBy(rows[i], r)], limit)
  {
    hide RowOk, Row, Of;
    var key := KeyOf(r);
    var rows, i := WithRow(ps, key), Find(ps, key);
    var after := rows[i := ObserveBy(rows[i], r)];
    RowToExtend(rs, ps, key, limit);
    forall k | 0 <= k < |after|
      ensures RowOk(rs + [r], after[k], limit)
    {
      if k == i {
        RowOkNext(rs, rows[i], r, limit);
      } else {
        OtherRowOk(rs, ps[k], r, limit);
      }
    }
    assert after[i].key == key && HasRow(after, key);
    KeysNext(rs, ps, after, r, limit);
  }

  lemma {:induction false} TableInvariant(rs: seq<HealthRecord>, limit: nat)
    ensures TableOk(rs, ObserveAll(rs, limit).producers, limit)
  {
    if rs != [] {
      var before, last := rs[..|rs| - 1], rs[|rs| - 1];
      TableInvariant(before, limit);
      assert before + [last] == rs;
      if ValidRunId(last, limit) {
        TableNext(before, ObserveAll(before, limit).producers, last, limit);
      } else {
        var ps := ObserveAll(before, limit).producers;
        forall i | 0 <= i < |ps|
          ensures RowOk(rs, ps[i], limit)
        {
          OtherRowOk(before, ps[i], last, limit);
        }
      }
    }
  }

  // ---------- Totals and run identifiers ----------

  ghost predicate AllUnblemished(ps: seq<Producer>) {
    forall i :: 0 <= i < |ps| ==> Unblemished(ps[i])
  }

  ghost predicate NoTroubleCounted(h: Health) {
    h.duplicates == 0 && h.nonmonotonic == 0 && h.mismatches == 0 && h.afterCompletion == 0 && h.writeFailures == 0
  }

  /** The totals are zero exactly when every row is clean. */
  lemma {:induction false} TotalsAreRows(rs: seq<HealthRecord>, limit: nat)
    ensures NoTroubleCounted(ObserveAll(rs, limit)) <==> AllUnblemished(ObserveAll(rs, limit).producers)
  {
    if rs != [] {
      var before, last := ObserveAll(rs[..|rs| - 1], limit), rs[|rs| - 1];
      TotalsAreRows(rs[..|rs| - 1], limit);
      if ValidRunId(last, limit) {
        var rows, i := WithRow(before.producers, KeyOf(last)), Find(before.producers, KeyOf(last));
        assert AllUnblemished(rows) <==> AllUnblemished(before.producers) by {
          assert forall k :: 0 <= k < |before.producers| ==> rows[k] == before.producers[k];
        }
        RowTroubles(rows, i, last);
      }
    }
  }

  lemma {:induction false} RowTroubles(rows: seq<Producer>, i: nat, r: HealthRecord)
    requires i < |rows|
    ensures AllUnblemished(rows[i := ObserveBy(rows[i], r)])
            <==> AllUnblemished(rows) && !IsDuplicate(rows[i], r) && !IsNonmonotonic(rows[i], r)
                 && !IsMismatch(rows[i], r)
                 && rows[i].completions == 0 && !IsWriteFailure(r)
  {
    var after := rows[i := ObserveBy(rows[i], r)];
    assert Unblemished(after[i]) ==> Unblemished(rows[i]);
    assert forall k :: 0 <= k < |rows| && k != i ==> after[k] == rows[k];
    if AllUnblemished(after) {
      assert Unblemished(after[i]);
      assert forall k :: 0 <= k < |rows| && k != i ==> Unblemished(after[k]);
    }
  }

  ghost predicate RunIdsOk(rs: seq<HealthRecord>, h: Health, limit: nat) {
    && (h.invalidRunIds == 0 <==> forall r :: r in rs ==> ValidRunId(r, limit))
    && (h.observed == 0 <==> h.distinctRunIds == 0)
    && (h.observed == 0 <==> forall r :: r in rs ==> !ValidRunId(r, limit))
    && (h.observed != 0 ==> exists r :: r in rs && ValidRunId(r, limit) && r.runId.value == h.runId)
    && (h.mixedRunIds <==> exists r :: r in rs && ValidRunId(r, limit) && h.observed != 0 && r.runId.value != h.runId)
    && (h.observed != 0 ==> h.distinctRunIds == if h.mixedRunIds then 2 else 1)
  }

  lemma {:induction false} RunIdsNext(rs: seq<HealthRecord>, h: Health, r: HealthRecord, limit: nat)
    requires RunIdsOk(rs, h, limit)
    ensures RunIdsOk(rs + [r], Observe(h, r, limit), limit)
  {
    var all := rs + [r];
    assert forall q :: q in all <==> q in rs || q == r;
    if ValidRunId(r, limit) && h.mixedRunIds {
      var q :| q in rs && ValidRunId(q, limit) && h.observed != 0 && q.runId.value != h.runId;
      assert q in all;
    }
    if h.observed != 0 {
      var q :| q in rs && ValidRunId(q, limit) && q.runId.value == h.runId;
      assert q in all;
    }
  }

  lemma {:induction false} RunIdsInvariant(rs: seq<HealthRecord>, limit: nat)
    ensures RunIdsOk(rs, ObserveAll(rs, limit), limit)
  {
    if rs != [] {
      var before, last := rs[..|rs| - 1], rs[|rs| - 1];
      var h := ObserveAll(before, limit);
      RunIdsInvariant(before, limit);
      RunIdsNext(before, h, last, limit);
      assert before + [last] == rs && ObserveAll(rs, limit) == Observe(h, last, limit);
    }
  }

  lemma {:induction false} ObserveAllNext(rs: seq<HealthRecord>, r: HealthRecord, limit: nat)
    ensures ObserveAll(rs + [r], limit) == Observe(ObserveAll(rs, limit), r, limit)
  {
    assert (rs + [r])[..|rs|] == rs;
  }

  // ---------- The verdict is exact ----------

  ghost predicate OneRun(rs: seq<HealthRecord>, limit: nat) {
    rs != [] && forall i :: 0 <= i < |rs| ==> ValidRunId(rs[i], limit) && rs[i].runId == rs[0].runId
  }

  ghost predicate OneRunCounted(h: Health) {
    h.observed != 0 && h.distinctRunIds == 1 && h.invalidRunIds == 0 && !h.mixedRunIds
  }

  lemma {:induction false} OneRunIffCounted(rs: seq<HealthRecord>, limit: nat)
    ensures OneRunCounted(ObserveAll(rs, limit)) <==> OneRun(rs, limit)
  {
    var h := ObserveAll(rs, limit);
    RunIdsInvariant(rs, limit);
    assert rs != [] ==> rs[0] in rs;
    if h.observed != 0 && h.invalidRunIds == 0 && !h.mixedRunIds {
      forall i | 0 <= i < |rs|
        ensures ValidRunId(rs[i], limit) && rs[i].runId == rs[0].runId
      {
        assert rs[i] in rs && rs[0] in rs;
      }
    }
    if OneRun(rs, limit) {
      assert forall r :: r in rs ==> ValidRunId(r, limit) && r.runId == rs[0].runId;
    }
  }

  lemma {:induction false} RowsIffLogs(rs: seq<HealthRecord>, ps: seq<Producer>, limit: nat)
    requires OneRun(rs, limit) && TableOk(rs, ps, limit)
    ensures (forall i :: 0 <= i < |ps| ==> Finished(ps[i]) && Unblemished(ps[i]))
            <==> forall i :: 0 <= i < |rs| ==> CompleteLog(Of(rs, KeyOf(rs[i]), limit))
  {
    if forall i :: 0 <= i < |ps| ==> Finished(ps[i]) && Unblemished(ps[i]) {
      forall i | 0 <= i < |rs|
        ensures CompleteLog(Of(rs, KeyOf(rs[i]), limit))
      {
        assert rs[i] in rs && HasRow(ps, KeyOf(rs[i]));
        var k :| 0 <= k < |ps| && ps[k].key == KeyOf(rs[i]);
        assert RowOk(rs, ps[k], limit);
        RowDecides(ps[k].key, Of(rs, ps[k].key, limit));
      }
    }
    if forall i :: 0 <= i < |rs| ==> CompleteLog(Of(rs, KeyOf(rs[i]), limit)) {
      forall k | 0 <= k < |ps|
        ensures Finished(ps[k]) && Unblemished(ps[k])
      {
        assert RowOk(rs, ps[k], limit);
        var i := OfIsFrom(rs, ps[k].key, limit);
        RowDecides(ps[k].key, Of(rs, ps[k].key, limit));
      }
    }
  }

  lemma {:induction false} OfIsFrom(rs: seq<HealthRecord>, key: ProducerKey, limit: nat) returns (i: nat)
    requires Of(rs, key, limit) != []
    ensures i < |rs| && ValidRunId(rs[i], limit) && KeyOf(rs[i]) == key
  {
    i := |rs| - 1;
    if !(ValidRunId(rs[i], limit) && KeyOf(rs[i]) == key) {
      i := OfIsFrom(rs[..i], key, limit);
    }
  }

  lemma {:induction false} JudgedInParts(h: Health)
    ensures JudgedComplete(h)
            <==> OneRunCounted(h) && NoTroubleCounted(h) && h.producers != [] && AllFinished(h.producers)
  {}

  ghost predicate AllFinished(ps: seq<Producer>) {
    forall i :: 0 <= i < |ps| ==> Finished(ps[i])
  }

  /** The counters call a stream complete exactly when it is one run whose
      producers each left a complete log. */
  lemma {:induction false} VerdictIsExact(rs: seq<HealthRecord>, limit: nat)
    ensures JudgedComplete(ObserveAll(rs, limit)) <==> CompleteStream(rs, limit)
  {
    hide ObserveAll, JudgedComplete, OneRunCounted, TableOk, CompleteLog, Of, Finished, Unblemished, NoTroubleCounted;
    var h := ObserveAll(rs, limit);
    JudgedInParts(h);
    OneRunIffCounted(rs, limit);
    TableInvariant(rs, limit);
    TotalsAreRows(rs, limit);
    if OneRun(rs, limit) {
      RowsIffLogs(rs, h.producers, limit);
      FirstHasRow(rs, h.producers, limit);
    }
  }

  lemma {:induction false} FirstHasRow(rs: seq<HealthRecord>, ps: seq<Producer>, limit: nat)
    requires OneRun(rs, limit) && TableOk(rs, ps, limit)
    ensures ps != []
  {
    assert rs[0] in rs && HasRow(ps, KeyOf(rs[0]));
  }

  lemma {:induction false} TwoRecords(r: HealthRecord, end: HealthRecord, limit: nat)
    requires ValidRunId(r, limit) && ValidRunId(end, limit) && KeyOf(r) == KeyOf(end)
    ensures Of([r, end], KeyOf(r), limit) == [r, end]
  {
    assert [r, end][..1] == [r] && [r][..0] == [];
    assert Of([r], KeyOf(r), limit) == [r];
  }

  /** A record without a sequence number is not flagged: before a completion
      it makes a complete stream. */
  lemma {:induction false} ZeroSequenceIsUnflagged(r: HealthRecord, end: HealthRecord, limit: nat)
    requires ValidRunId(r, limit) && ValidRunId(end, limit) && KeyOf(r) == KeyOf(end)
    requires !IsCompletion(r) && r.sequence == 0 && IsCompletion(end) && end.attempted == 1 && !end.writeFailed
    ensures JudgedComplete(ObserveAll([r, end], limit))
  {
    hide ObserveAll, JudgedComplete;
    TwoRecords(r, end, limit);
    VerdictIsExact([r, end], limit);
  }

  ghost predicate Numbered(s: seq<HealthRecord>) {
    (forall i :: 0 <= i < |s| ==> s[i].sequence != 0)
      && forall i, j :: 0 <= i < j < |s| ==> s[i].sequence < s[j].sequence
  }

  /** In a stream judged complete the numbers of every producer are nonzero and
      strictly increase exactly when no record lacks its number. */
  lemma {:induction false} NumberedStreamsIncrease(rs: seq<HealthRecord>, limit: nat)
    requires JudgedComplete(ObserveAll(rs, limit))
    ensures (forall r :: r in rs ==> r.runId.Some?)
            && ((forall r :: r in rs ==> Numbered(Of(rs, KeyOf(r), limit)))
                <==> forall r :: r in rs ==> r.sequence != 0)
  {
    VerdictIsExact(rs, limit);
    forall r | r in rs
      ensures ValidRunId(r, limit) && r in Of(rs, KeyOf(r), limit) && Rising(Of(rs, KeyOf(r), limit))
    {
      var i :| 0 <= i < |rs| && rs[i] == r;
      assert CompleteLog(Of(rs, KeyOf(rs[i]), limit));
      OfHasOwn(rs, r, limit);
    }
    if forall r :: r in rs ==> r.sequence != 0 {
      forall r | r in rs
        ensures Numbered(Of(rs, KeyOf(r), limit))
      {
        OfWithin(rs, KeyOf(r), limit);
        RisingIsNumbered(Of(rs, KeyOf(r), limit));
      }
    }
    if forall r :: r in rs ==> Numbered(Of(rs, KeyOf(r), limit)) {
      forall r | r in rs
        ensures r.sequence != 0
      {
        var log := Of(rs, KeyOf(r), limit);
        assert Numbered(log) && r in log;
      }
    }
  }

  lemma {:induction false} RisingIsNumbered(s: seq<HealthRecord>)
    requires Rising(s) && forall r :: r in s ==> r.sequence != 0
    ensures Numbered(s)
  {
    assert forall i :: 0 <= i < |s| ==> s[i] in s;
  }

  lemma {:induction false} OfHasOwn(rs: seq<HealthRecord>, r: HealthRecord, limit: nat)
    requires r in rs && ValidRunId(r, limit)
    ensures r in Of(rs, KeyOf(r), limit)
  {
    if rs[|rs| - 1] != r {
      OfHasOwn(rs[..|rs| - 1], r, limit);
    }
  }

  lemma {:induction false} OfWithin(rs: seq<HealthRecord>, key: ProducerKey, limit: nat)
    ensures forall r :: r in Of(rs, key, limit) ==> r in rs
  {
    if rs != [] {
      OfWithin(rs[..|rs| - 1], key, limit);
    }
  }
}
