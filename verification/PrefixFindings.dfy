/** When a schedule counts as a counterexample, told from its records: which
    keys the findings of its prefixes have. Cutting the run short adds wait and
    join cycles and nothing else. */
module PrefixFindings {
  import opened Events
  import opened Interleaving
  import opened Schedules
  import opened SyncEvidence
  import opened SyncFindings
  import opened SyncSpec

  ghost predicate ShowsKey(order: seq<Node>, i: nat, key: SyncKey) {
    Shows(order, i, key.rule, key.from, key.to)
  }

  ghost predicate ShowsSomewhere(order: seq<Node>, key: SyncKey) {
    exists i: nat :: ShowsKey(order, i, key)
  }

  ghost predicate CutShows(order: seq<Node>, l: nat, key: SyncKey) {
    l <= |order| && ShowsSomewhere(order[..l], key)
  }

  /** A cycle of waits or joins stands at the end of some prefix; any other key
      is shown by a record of the whole order. */
  ghost predicate Appears(order: seq<Node>, key: SyncKey) {
    if OfEnd(key.rule) then exists l: nat :: CutShows(order, l, key) else ShowsSomewhere(order, key)
  }

  lemma {:induction false} LeastShows(order: seq<Node>, i: nat, key: SyncKey) returns (f: SyncFinding)
    requires ShowsKey(order, i, key)
    ensures IsFinding(order, f) && SameFinding(f, key.rule, key.from, key.to)
  {
    hide Shows;
    if j: nat :| j < i && ShowsKey(order, j, key) {
      f := LeastShows(order, j, key);
    } else {
      f := SyncFinding(key.rule, key.from, key.to, i);
      forall j: nat | j < i
        ensures !Shows(order, j, key.rule, key.from, key.to)
      {
        assert !ShowsKey(order, j, key);
      }
    }
  }

  lemma {:induction false} ReportedIsShown(order: seq<Node>, key: SyncKey)
    ensures Reported(Analyze(EventsOf(order)), key.rule, key.from, key.to) <==> ShowsSomewhere(order, key)
  {
    hide Analyze, EventsOf, Shows;
    if f :| f in Analyze(EventsOf(order)) && SameFinding(f, key.rule, key.from, key.to) {
      FindingsExact(order, f);
      assert ShowsKey(order, f.at, key);
    }
    if i: nat :| ShowsKey(order, i, key) {
      var f := LeastShows(order, i, key);
      FindingsExact(order, f);
    }
  }

  lemma {:induction false} EventsOfCut(order: seq<Node>, l: nat)
    requires l <= |order|
    ensures |EventsOf(order)| == |order| && EventsOf(order)[..l] == EventsOf(order[..l])
  {
    hide EventOf;
  }

  /** Without a rule of the end, a prefix shows what the whole order shows there. */
  lemma {:induction false} CutShowsAlike(order: seq<Node>, l: nat, i: nat, key: SyncKey)
    requires i < l <= |order| && !OfEnd(key.rule)
    ensures ShowsKey(order[..l], i, key) <==> ShowsKey(order, i, key)
  {
    hide EventsOf, Shows, Run, PairsOf;
    EventsOfCut(order, l);
    GivesIsShows(order[..l], i, key.rule, key.from, key.to);
    GivesIsShows(order, i, key.rule, key.from, key.to);
    assert EventsOf(order)[..l][..i] == EventsOf(order)[..i];
  }

  lemma {:induction false} ShowsInRange(order: seq<Node>, i: nat, key: SyncKey)
    requires ShowsKey(order, i, key)
    ensures i < |order|
  {}

  lemma {:induction false} PrefixKeyIsCut(order: seq<Node>, key: SyncKey)
    ensures PrefixKey(EventsOf(order), |order|, key) <==> exists l: nat :: CutShows(order, l, key)
  {
    hide EventsOf, ShowsKey;
    EventsOfCut(order, 0);
    forall l: nat | l <= |order|
      ensures Reported(Analyze(EventsOf(order)[..l]), key.rule, key.from, key.to) <==> CutShows(order, l, key)
    {
      EventsOfCut(order, l);
      ReportedIsShown(order[..l], key);
    }
    if l: nat :| CutShows(order, l, key) {
      var i: nat :| ShowsKey(order[..l], i, key);
      ShowsInRange(order[..l], i, key);
      assert l > 0;
    }
  }

  /** The keys of the prefixes, told from the records. */
  lemma {:induction false} PrefixKeysAppear(order: seq<Node>, key: SyncKey)
    ensures PrefixKey(EventsOf(order), |order|, key) <==> Appears(order, key)
  {
    hide EventsOf, PrefixKey, ShowsKey;
    PrefixKeyIsCut(order, key);
    if !OfEnd(key.rule) {
      if l: nat :| CutShows(order, l, key) {
        var i: nat :| ShowsKey(order[..l], i, key);
        ShowsInRange(order[..l], i, key);
        CutShowsAlike(order, l, i, key);
      }
      if ShowsSomewhere(order, key) {
        assert order[..|order|] == order;
        assert CutShows(order, |order|, key);
      }
    }
  }

  /** A schedule is a counterexample exactly when a key appears in it and not in the baseline. */
  lemma {:induction false} NovelIffAppears(t: Timeline, s: seq<nat>)
    requires forall v :: v in s ==> v < |t.nodes|
    ensures Novel(t, s) <==> exists key :: Appears(ScheduleNodes(t, s), key) && !Appears(t.nodes, key)
  {
    hide Appears, PrefixKey;
    forall key: SyncKey
      ensures NovelKey(t, s, key) <==> Appears(ScheduleNodes(t, s), key) && !Appears(t.nodes, key)
    {
      PrefixKeysAppear(ScheduleNodes(t, s), key);
      PrefixKeysAppear(t.nodes, key);
    }
  }
}
