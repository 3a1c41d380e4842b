/** Judging whether a log is complete, from counters alone: one pass over the
    records, one row of counters per producer. */
module HealthSpec {
  import opened Events
  import opened Wrappers

  datatype HealthRecord = HealthRecord(
    runId: Option<string>, pid: int, context: nat, sequence: nat, kind: RecordKind, attempted: nat, writeFailed: bool,
    writeErrno: int)

  datatype ProducerKey = ProducerKey(runId: string, pid: int, context: nat)

  datatype Producer = Producer(
    key: ProducerKey, observed: nat, completions: nat, lastSequence: nat, duplicates: nat, nonmonotonic: nat,
    mismatches: nat, afterCompletion: nat, writeFailed: bool, writeErrno: int, pendingExec: bool)

  datatype Health = Health(
    observed: nat, completions: nat, writeFailures: nat, duplicates: nat, nonmonotonic: nat, mismatches: nat,
    afterCompletion: nat, distinctRunIds: nat, invalidRunIds: nat, mixedRunIds: bool, runId: string,
    lastWriteErrno: int,
    producers: seq<Producer>)

  const NO_HEALTH := Health(0, 0, 0, 0, 0, 0, 0, 0, 0, false, "", 0, [])

  // ---------- One record ----------

  predicate ValidRunId(r: HealthRecord, limit: nat) {
    r.runId.Some? && r.runId.value != "" && |r.runId.value| <= limit
  }

  function KeyOf(r: HealthRecord): ProducerKey
    requires r.runId.Some?
  {
    ProducerKey(r.runId.value, r.pid, r.context)
  }

  function NewProducer(key: ProducerKey): Producer {
    Producer(key, 0, 0, 0, 0, 0, 0, 0, false, 0, false)
  }

  predicate IsCompletion(r: HealthRecord) {
    r.kind == CompleteRecord
  }

  predicate IsDuplicate(p: Producer, r: HealthRecord) {
    r.sequence != 0 && r.sequence == p.lastSequence
  }

  predicate IsNonmonotonic(p: Producer, r: HealthRecord) {
    !IsDuplicate(p, r) && r.sequence != 0 && p.lastSequence != 0 && r.sequence < p.lastSequence
  }

  /** A completion reports the number of records before it. */
  predicate IsMismatch(p: Producer, r: HealthRecord) {
    IsCompletion(r) && r.attempted != p.observed - p.completions
  }

  predicate IsWriteFailure(r: HealthRecord) {
    IsCompletion(r) && r.writeFailed
  }

  function One(b: bool): nat {
    if b then 1 else 0
  }

  function ObserveBy(p: Producer, r: HealthRecord): Producer {
    Producer(
      p.key,
      p.observed + 1,
      p.completions + One(IsCompletion(r)),
      if r.sequence > p.lastSequence then r.sequence else p.lastSequence,
      p.duplicates + One(IsDuplicate(p, r)),
      p.nonmonotonic + One(IsNonmonotonic(p, r)),
      p.mismatches + One(IsMismatch(p, r)),
      p.afterCompletion + One(p.completions > 0),
      p.writeFailed || IsWriteFailure(r),
      if IsWriteFailure(r) then r.writeErrno else p.writeErrno,
      if r.kind == ExecRecord then true
        else if r.kind == ExecFailRecord || IsCompletion(r) then false else p.pendingExec)
  }

  /** The row of a key, or the number of rows. */
  function Find(ps: seq<Producer>, key: ProducerKey): (i: nat)
    ensures i <= |ps| && (i < |ps| ==> ps[i].key == key)
    ensures forall j :: 0 <= j < i ==> ps[j].key != key
  {
    if ps == [] then 0
    else
      var i := Find(ps[..|ps| - 1], key);
      if i < |ps| - 1 || ps[|ps| - 1].key == key then i else |ps|
  }

  /** The table with a row for the key. */
  function WithRow(ps: seq<Producer>, key: ProducerKey): (r: seq<Producer>)
    ensures Find(ps, key) < |r|
  {
    if Find(ps, key) < |ps| then ps else ps + [NewProducer(key)]
  }

  function NoteRunId(h: Health, id: string): Health {
    if h.distinctRunIds == 0 then h.(runId := id, distinctRunIds := 1)
    else if h.runId != id then h.(mixedRunIds := true, distinctRunIds := 2)
    else h
  }

  function Observe(h: Health, r: HealthRecord, limit: nat): Health {
    if !ValidRunId(r, limit) then h.(invalidRunIds := h.invalidRunIds + 1)
    else
      var noted, ps, i := NoteRunId(h, r.runId.value), WithRow(h.producers, KeyOf(r)), Find(h.producers, KeyOf(r));
      var p := ps[i];
      noted.(
        observed := h.observed + 1,
        completions := h.completions + One(IsCompletion(r)),
        writeFailures := h.writeFailures + One(IsWriteFailure(r)),
        duplicates := h.duplicates + One(IsDuplicate(p, r)),
        nonmonotonic := h.nonmonotonic + One(IsNonmonotonic(p, r)),
        mismatches := h.mismatches + One(IsMismatch(p, r)),
        afterCompletion := h.afterCompletion + One(p.completions > 0),
        lastWriteErrno := if IsWriteFailure(r) then r.writeErrno else h.lastWriteErrno,
        producers := ps[i := ObserveBy(p, r)])
  }

  function ObserveAll(rs: seq<HealthRecord>, limit: nat): Health {
    if rs == [] then NO_HEALTH else Observe(ObserveAll(rs[..|rs| - 1], limit), rs[|rs| - 1], limit)
  }

  // ---------- The verdict ----------

  predicate Finished(p: Producer) {
    p.completions == 1 && !p.writeFailed && p.mismatches == 0
  }

  function Unfinished(ps: seq<Producer>): (n: nat)
    ensures n == 0 <==> forall i :: 0 <= i < |ps| ==> Finished(ps[i])
  {
    if ps == [] then 0 else Unfinished(ps[..|ps| - 1]) + One(!Finished(ps[|ps| - 1]))
  }

  predicate JudgedComplete(h: Health) {
    h.observed != 0 && |h.producers| != 0 && h.writeFailures == 0 && h.duplicates == 0 && h.nonmonotonic == 0
    && h.mismatches == 0 && h.afterCompletion == 0 && h.distinctRunIds == 1 && h.invalidRunIds == 0 && !h.mixedRunIds
    && Unfinished(h.producers) == 0
  }

  // ---------- What a complete stream is ----------

  /** The records of one producer. */
  function Of(rs: seq<HealthRecord>, key: ProducerKey, limit: nat): seq<HealthRecord> {
    if rs == [] then []
    else
      var last := rs[|rs| - 1];
      Of(rs[..|rs| - 1], key, limit) + (if ValidRunId(last, limit) && KeyOf(last) == key then [last] else [])
  }

  /** The nonzero sequence numbers strictly increase. */
  ghost predicate Rising(s: seq<HealthRecord>) {
    forall i, j :: 0 <= i < j < |s| && s[i].sequence != 0 && s[j].sequence != 0 ==> s[i].sequence < s[j].sequence
  }

  ghost predicate NoneCompletes(s: seq<HealthRecord>) {
    forall i :: 0 <= i < |s| ==> !IsCompletion(s[i])
  }

  /** One completion, at the end, that counts the records before it and had no
      write failure, after rising sequence numbers. */
  ghost predicate CompleteLog(s: seq<HealthRecord>) {
    s != []
    && var last := s[|s| - 1];
       IsCompletion(last) && NoneCompletes(s[..|s| - 1]) && last.attempted == |s| - 1 && !last.writeFailed && Rising(s)
  }

  ghost predicate CompleteStream(rs: seq<HealthRecord>, limit: nat) {
    && rs != []
    && (forall i :: 0 <= i < |rs| ==> ValidRunId(rs[i], limit) && rs[i].runId == rs[0].runId)
    && (forall i :: 0 <= i < |rs| ==> CompleteLog(Of(rs, KeyOf(rs[i]), limit)))
  }
}
