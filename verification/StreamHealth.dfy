/** The stream health object: counters updated record by record. */
module StreamHealth {
  import opened Events
  import opened HealthCounts
  import opened HealthSpec
  import opened HealthTheorems

  class StreamHealth {
    const runIdLimit: nat
    var recordsObserved: nat
    var completionRecords: nat
    var producerWriteFailures: nat
    var duplicateSequences: nat
    var nonmonotonicSequences: nat
    var attemptedCountMismatches: nat
    var recordsAfterCompletion: nat
    var distinctRunIds: nat
    var invalidRunIds: nat
    var mixedRunIds: bool
    var runId: string
    var lastWriteErrno: int
    var producers: seq<Producer>

    /** The records observed so far. */
    ghost var log: seq<HealthRecord>

    function State(): Health
      reads this
    {
      Health(recordsObserved, completionRecords, producerWriteFailures, duplicateSequences, nonmonotonicSequences,
             attemptedCountMismatches, recordsAfterCompletion, distinctRunIds, invalidRunIds, mixedRunIds, runId,
             lastWriteErrno, producers)
    }

    ghost predicate Valid()
      reads this
    {
      State() == ObserveAll(log, runIdLimit)
    }

    constructor (limit: nat)
      ensures Valid() && log == [] && runIdLimit == limit
    {
      runIdLimit := limit;
      recordsObserved, completionRecords, producerWriteFailures := 0, 0, 0;
      duplicateSequences, nonmonotonicSequences, attemptedCountMismatches := 0, 0, 0;
      recordsAfterCompletion, distinctRunIds, invalidRunIds := 0, 0, 0;
      mixedRunIds, runId, lastWriteErrno := false, "", 0;
      producers := [];
      log := [];
    }

    method FindOrAddProducer(key: ProducerKey) returns (index: nat)
      modifies this`producers
      ensures producers == WithRow(old(producers), key) && index == Find(old(producers), key)
    {
      index := 0;
      while index < |producers| && producers[index].key != key
        invariant index <= |producers| && producers == old(producers)
        invariant forall j :: 0 <= j < index ==> producers[j].key != key
      {
        index := index + 1;
      }
      if index == |producers| {
        producers := producers + [NewProducer(key)];
      }
    }

    /** Notes the run identifier of a record. */
    method CheckRunId(id: string)
      modifies this`runId, this`distinctRunIds, this`mixedRunIds
      ensures State() == NoteRunId(old(State()), id)
    {
      if distinctRunIds == 0 {
        runId := id;
        distinctRunIds := 1;
      } else if runId != id {
        mixedRunIds := true;
        distinctRunIds := 2;
      }
    }

    /** A record with a valid run identifier. */
    method ObserveAdmitted(r: HealthRecord)
      requires ValidRunId(r, runIdLimit)
      modifies this
      ensures State() == HealthSpec.Observe(old(State()), r, runIdLimit)
      ensures log == old(log)
    {
      hide ObserveBy, IsDuplicate, IsNonmonotonic, IsMismatch, IsWriteFailure, IsCompletion, One, Find, NoteRunId;
      CheckRunId(r.runId.value);
      var index := FindOrAddProducer(KeyOf(r));
      CountRecord(r, index);
    }

    /** p101_tool_event_stream_health_observe. */
    method Observe(r: HealthRecord) returns (ok: bool)
      requires Valid()
      modifies this
      ensures Valid() && log == old(log) + [r]
      ensures ok <==> ValidRunId(r, runIdLimit)
      ensures State() == HealthSpec.Observe(old(State()), r, runIdLimit)
    {
      ok := r.runId.Some? && r.runId.value != "" && |r.runId.value| <= runIdLimit;
      if !ok {
        invalidRunIds := invalidRunIds + 1;
      } else {
        ObserveAdmitted(r);
      }
      log := log + [r];
      ObserveAllNext(old(log), r, runIdLimit);
    }

    /** The record and what came before it, on the producer's row. */
    method CountArrival(r: HealthRecord, producer: Producer) returns (q: Producer)
      modifies this`recordsObserved, this`recordsAfterCompletion
      ensures recordsObserved == old(recordsObserved) + 1
      ensures recordsAfterCompletion == old(recordsAfterCompletion) + One(producer.completions > 0)
      ensures q == producer.(observed := q.observed, pendingExec := q.pendingExec, afterCompletion := q.afterCompletion)
      ensures q.observed == producer.observed + 1
      ensures q.afterCompletion == producer.afterCompletion + One(producer.completions > 0)
      ensures q.pendingExec
              == (r.kind == ExecRecord || (producer.pendingExec && r.kind != ExecFailRecord && !IsCompletion(r)))
    {
      recordsObserved := recordsObserved + 1;
      q := producer.(observed := producer.observed + 1);
      if r.kind == ExecRecord {
        q := q.(pendingExec := true);
      } else if r.kind == ExecFailRecord || r.kind == CompleteRecord {
        q := q.(pendingExec := false);
      }
      if q.completions > 0 {
        q := q.(afterCompletion := q.afterCompletion + 1);
        recordsAfterCompletion := recordsAfterCompletion + 1;
      }
    }

    /** The order of the sequence numbers. */
    method CountSequence(r: HealthRecord, producer: Producer) returns (q: Producer)
      modifies this`duplicateSequences, this`nonmonotonicSequences
      ensures duplicateSequences == old(duplicateSequences) + One(IsDuplicate(producer, r))
      ensures nonmonotonicSequences == old(nonmonotonicSequences) + One(IsNonmonotonic(producer, r))
      ensures q == producer.(lastSequence := q.lastSequence, duplicates := q.duplicates, nonmonotonic := q.nonmonotonic)
      ensures q.lastSequence == if r.sequence > producer.lastSequence then r.sequence else producer.lastSequence
      ensures q.duplicates == producer.duplicates + One(IsDuplicate(producer, r))
      ensures q.nonmonotonic == producer.nonmonotonic + One(IsNonmonotonic(producer, r))
    {
      q := producer;
      if r.sequence != 0 && r.sequence == q.lastSequence {
        q := q.(duplicates := q.duplicates + 1);
        duplicateSequences := duplicateSequences + 1;
      } else if r.sequence != 0 && q.lastSequence != 0 && r.sequence < q.lastSequence {
        q := q.(nonmonotonic := q.nonmonotonic + 1);
        nonmonotonicSequences := nonmonotonicSequences + 1;
      }
      if r.sequence > q.lastSequence {
        q := q.(lastSequence := r.sequence);
      }
    }

    /** A completion record: `observed` already counts it, `completions` is
        raised before the comparison. */
    method CountCompletion(r: HealthRecord, producer: Producer) returns (q: Producer)
      requires IsCompletion(r)
      modifies this`completionRecords, this`attemptedCountMismatches, this`producerWriteFailures, this`lastWriteErrno
      ensures var wrong := One(r.attempted != producer.observed - (producer.completions + 1));
              attemptedCountMismatches == old(attemptedCountMismatches) + wrong
                && q.mismatches == producer.mismatches + wrong
      ensures completionRecords == old(completionRecords) + 1 && q.completions == producer.completions + 1
      ensures producerWriteFailures == old(producerWriteFailures) + One(r.writeFailed)
      ensures lastWriteErrno == if r.writeFailed then r.writeErrno else old(lastWriteErrno)
      ensures q == producer.(completions := q.completions, mismatches := q.mismatches, writeFailed := q.writeFailed,
                             writeErrno := q.writeErrno)
      ensures q.writeFailed == (producer.writeFailed || r.writeFailed)
      ensures q.writeErrno == if r.writeFailed then r.writeErrno else producer.writeErrno
    {
      completionRecords := completionRecords + 1;
      q := producer.(completions := producer.completions + 1);
      if r.attempted != q.observed - q.completions {
        q := q.(mismatches := q.mismatches + 1);
        attemptedCountMismatches := attemptedCountMismatches + 1;
      }
      if r.writeFailed {
        producerWriteFailures := producerWriteFailures + 1;
        lastWriteErrno := r.writeErrno;
        q := q.(writeFailed := true, writeErrno := r.writeErrno);
      }
    }

    /** The counting part of observe, on the row of the record's producer. */
    method CountRecord(r: HealthRecord, index: nat)
      requires index < |producers|
      modifies this`recordsObserved, this`recordsAfterCompletion, this`duplicateSequences, this`nonmonotonicSequences,
        this`completionRecords, this`attemptedCountMismatches, this`producerWriteFailures, this`lastWriteErrno,
        this`producers
      ensures producers == old(producers)[index := ObserveBy(old(producers)[index], r)]
      ensures recordsObserved == old(recordsObserved) + 1
      ensures completionRecords == old(completionRecords) + One(IsCompletion(r))
      ensures producerWriteFailures == old(producerWriteFailures) + One(IsWriteFailure(r))
      ensures lastWriteErrno == if IsWriteFailure(r) then r.writeErrno else old(lastWriteErrno)
      ensures duplicateSequences == old(duplicateSequences) + One(IsDuplicate(old(producers)[index], r))
      ensures nonmonotonicSequences == old(nonmonotonicSequences) + One(IsNonmonotonic(old(producers)[index], r))
      ensures attemptedCountMismatches == old(attemptedCountMismatches) + One(IsMismatch(old(producers)[index], r))
      ensures recordsAfterCompletion == old(recordsAfterCompletion) + One(old(producers)[index].completions > 0)
    {
      var producer := CountArrival(r, producers[index]);
      producer := CountSequence(r, producer);
      if r.kind == CompleteRecord {
        producer := CountCompletion(r, producer);
      }
      producers := producers[index := producer];
    }

    /** p101_tool_event_stream_health_incomplete_producers. */
    method IncompleteProducers() returns (incomplete: nat)
      ensures incomplete == Unfinished(producers)
      ensures Valid() ==> incomplete == |UnfinishedKeys(log, runIdLimit)|
    {
      incomplete := 0;
      var index := 0;
      while index < |producers|
        invariant index <= |producers| && incomplete == Unfinished(producers[..index])
      {
        var producer := producers[index];
        assert producers[..index + 1][..index] == producers[..index];
        if producer.completions != 1 || producer.writeFailed || producer.mismatches != 0 {
          incomplete := incomplete + 1;
        }
        index := index + 1;
      }
      assert producers[..index] == producers;
      UnfinishedAreCounted(log, runIdLimit);
    }

    /** p101_tool_event_stream_health_is_complete: exact for the whole log. */
    method IsComplete() returns (complete: bool)
      requires Valid()
      ensures complete <==> CompleteStream(log, runIdLimit)
    {
      var incomplete := IncompleteProducers();
      complete := recordsObserved != 0 && |producers| != 0 && producerWriteFailures == 0 && duplicateSequences == 0
                  && nonmonotonicSequences == 0 && attemptedCountMismatches == 0 && recordsAfterCompletion == 0
                  && distinctRunIds == 1 && invalidRunIds == 0 && !mixedRunIds && incomplete == 0;
      VerdictIsExact(log, runIdLimit);
    }
  }
}
