/**
 Which uploads whole runs of checkpointed polling lose, exactly (S3UploadIngestionSource.ts with
 ingestionService.ts): an object is lost when the checkpoint has passed it and it was never stored.
 */
module PollingLosses {
  import opened UploadPoller
  import opened PollingRuns
  import opened PollingMisses

  predicate InBucket(s: State, o: ObjectRef) {
    o.key in s.bucket && s.bucket[o.key] == o.ms
  }

  /** A supported object of the bucket at or before the checkpoint that was not stored. */
  ghost predicate Missing(p: Setup, s: State, o: ObjectRef) {
    InBucket(s, o) && Supported(p, o.key) && !After(MarkOf(p, s), o) && !Held(s.stored, o)
  }

  /** The step puts or removes an object under `key`. */
  predicate Touches(e: Event, key: string) {
    match e
    case Put(k, _) => k == key
    case Remove(k) => k == key
    case _ => false
  }

  /**
   The step loses `o`: it puts it at or before the checkpoint, or it stores the checkpoint of a file that
   lies beyond it while it is in the bucket.
   */
  ghost predicate Loses(p: Setup, s: State, e: Event, o: ObjectRef) {
    && Supported(p, o.key) && !Held(s.stored, o)
    && match e
       case Put(key, ms) => o == ObjectRef(key, ms) && !After(MarkOf(p, s), o)
       case Store => s.batch != [] && InBucket(s, o) && After(MarkOf(p, s), o) && Before(o, s.batch[0].ref)
       case _ => false
  }

  lemma {:induction false} PutLosesIff(p: Setup, s: State, key: string, ms: int, o: ObjectRef)
    ensures Missing(p, Step(p, s, Put(key, ms)), o) <==>
      (Missing(p, s, o) && key != o.key) || Loses(p, s, Put(key, ms), o)
  {
  }

  /** What a stored file's checkpoint passes is that file and what lies before it. */
  lemma {:induction false} StorePasses(p: Setup, s: State, o: ObjectRef)
    requires Faithful(p.clock) && InOrder(p, s) && s.begun > 0 && After(MarkOf(p, s), o)
    ensures var t := Step(p, s, Store);
      && !Held(s.stored, o)
      && (!After(MarkOf(p, t), o) && !Held(t.stored, o) <==> Before(o, s.batch[0].ref))
  {
    var f := s.batch[0];
    StoredMark(p, s);
    StoredIsNotAfterMark(p, s, o);
    HeldInEither(s.stored, [f], o);
    assert Held([f], o) <==> f.ref == o by {
      if f.ref == o { assert f in [f]; }
    }
    PositionOrder(o, f.ref, o);
    PositionOrder(f.ref, o, f.ref);
  }

  lemma {:induction false} StoreLosesIff(p: Setup, s: State, o: ObjectRef)
    requires Faithful(p.clock) && InOrder(p, s) && s.begun > 0
    ensures Missing(p, Step(p, s, Store), o) <==> Missing(p, s, o) || Loses(p, s, Store, o)
  {
    if After(MarkOf(p, s), o) {
      StorePasses(p, s, o);
    } else if !Held(s.stored, o) {
      CheckpointMovesForward(p, s, o);
    } else {
      HeldInEither(s.stored, [s.batch[0]], o);
    }
  }

  /** After a step an object is missing exactly when it was and the step leaves its key alone, or the step loses it. */
  lemma {:induction false} StepLosesIff(p: Setup, s: State, e: Event, o: ObjectRef)
    requires Faithful(p.clock) && InOrder(p, s) && Enabled(s, e)
    ensures Missing(p, Step(p, s, e), o) <==> (Missing(p, s, o) && !Touches(e, o.key)) || Loses(p, s, e, o)
  {
    match e
    case Put(key, ms) => PutLosesIff(p, s, key, ms, o);
    case Store => StoreLosesIff(p, s, o);
    case _ =>
  }

  // ----- whole runs

  ghost predicate UntouchedFrom(events: seq<Event>, k: nat, key: string) {
    forall j | k <= j < |events| :: !Touches(events[j], key)
  }

  /** Step `k` loses `o`, and no later step puts or removes its key. */
  ghost predicate LostAt(p: Setup, s: State, events: seq<Event>, k: nat, o: ObjectRef) {
    k < |events| && Loses(p, Run(p, s, events[..k]), events[k], o) && UntouchedFrom(events, k + 1, o.key)
  }

  ghost predicate Lost(p: Setup, s: State, events: seq<Event>, o: ObjectRef) {
    exists k: nat :: LostAt(p, s, events, k, o)
  }

  lemma {:induction false} UntouchedSnoc(events: seq<Event>, k: nat, key: string)
    requires events != [] && k <= |events| - 1
    ensures var n := |events| - 1;
      UntouchedFrom(events, k, key) <==> UntouchedFrom(events[..n], k, key) && !Touches(events[n], key)
  {
    var n := |events| - 1;
    assert forall j | 0 <= j < n :: events[..n][j] == events[j];
  }

  lemma {:induction false} LostAtPrefix(p: Setup, s: State, events: seq<Event>, k: nat, o: ObjectRef)
    requires events != [] && k < |events| - 1
    ensures var n := |events| - 1;
      LostAt(p, s, events, k, o) <==> LostAt(p, s, events[..n], k, o) && !Touches(events[n], o.key)
  {
    var n := |events| - 1;
    assert events[..n][..k] == events[..k];
    UntouchedSnoc(events, k + 1, o.key);
  }

  lemma {:induction false} LostSnoc(p: Setup, s: State, events: seq<Event>, o: ObjectRef)
    requires events != []
    ensures var n := |events| - 1;
      Lost(p, s, events, o) <==>
        (Lost(p, s, events[..n], o) && !Touches(events[n], o.key)) || Loses(p, Run(p, s, events[..n]), events[n], o)
  {
    var n := |events| - 1;
    if Lost(p, s, events, o) {
      var k: nat :| LostAt(p, s, events, k, o);
      if k < n {
        LostAtPrefix(p, s, events, k, o);
      }
    }
    if Lost(p, s, events[..n], o) && !Touches(events[n], o.key) {
      var k: nat :| LostAt(p, s, events[..n], k, o);
      LostAtPrefix(p, s, events, k, o);
    }
    if Loses(p, Run(p, s, events[..n]), events[n], o) {
      assert LostAt(p, s, events, n, o);
    }
  }

  /** From any state: what is missing in the end was lost on the way, or missing before and never touched. */
  lemma {:induction false} MissingAfterRunIff(p: Setup, s: State, events: seq<Event>, o: ObjectRef)
    requires Faithful(p.clock) && InOrder(p, s) && Possible(p, s, events)
    ensures Missing(p, Run(p, s, events), o) <==>
      (Missing(p, s, o) && UntouchedFrom(events, 0, o.key)) || Lost(p, s, events, o)
  {
    if events != [] {
      var n := |events| - 1;
      PossiblePrefix(p, s, events);
      MissingAfterRunIff(p, s, events[..n], o);
      OrderIsKept(p, s, events[..n]);
      StepLosesIff(p, Run(p, s, events[..n]), events[n], o);
      LostSnoc(p, s, events, o);
      UntouchedSnoc(events, 0, o.key);
    }
  }

  /**
   In every run from an empty checkpoint, a supported object in the bucket at or before the checkpoint was
   never stored if and only if some step lost it and no later step put or removed its key.
   */
  lemma {:induction false} MissingIffLost(p: Setup, s: State, events: seq<Event>, o: ObjectRef)
    requires Faithful(p.clock) && Fresh(s) && MarkOf(p, s).Start? && Possible(p, s, events)
    ensures Missing(p, Run(p, s, events), o) <==> Lost(p, s, events, o)
  {
    MissingAfterRunIff(p, s, events, o);
  }

  ghost predicate NothingMissing(p: Setup, s: State) {
    forall o :: !Missing(p, s, o)
  }

  ghost predicate LosesNothing(p: Setup, s: State, events: seq<Event>) {
    forall o :: !Lost(p, s, events, o)
  }

  /** So every such object is delivered if and only if the run loses none that it does not touch again. */
  lemma {:induction false} EverythingIsDeliveredIff(p: Setup, s: State, events: seq<Event>)
    requires Faithful(p.clock) && Fresh(s) && MarkOf(p, s).Start? && Possible(p, s, events)
    ensures NothingMissing(p, Run(p, s, events)) <==> LosesNothing(p, s, events)
  {
    if NothingMissing(p, Run(p, s, events)) {
      forall o ensures !Lost(p, s, events, o) {
        MissingIffLost(p, s, events, o);
      }
    }
    if LosesNothing(p, s, events) {
      forall o ensures !Missing(p, Run(p, s, events), o) {
        MissingIffLost(p, s, events, o);
      }
    }
  }

  // ----- behind the frontier is not yet lost

  /**
   A put behind the frontier but after the checkpoint is lost only if a file beyond it is stored: when the
   run is given up instead, nothing is.
   */
  lemma {:induction false} PutBehindFrontierMayBeSaved(p: Setup, s: State, o: ObjectRef)
    requires InOrder(p, s) && NothingMissed(p, s) && After(MarkOf(p, s), o)
    ensures NothingMissed(p, Step(p, Step(p, s, Put(o.key, o.ms)), Abandon))
  {
    var t := Step(p, Step(p, s, Put(o.key, o.ms)), Abandon);
    assert MarkOf(p, t) == MarkOf(p, s);
    forall key | key in t.bucket && Supported(p, key) && Passed(p, t, ObjectRef(key, t.bucket[key]))
      ensures Held(t.stored + t.batch, ObjectRef(key, t.bucket[key]))
    {
      var q := ObjectRef(key, t.bucket[key]);
      assert q != o && key in s.bucket;
      OldIsPassed(p, s, q);
      HeldInEither(s.stored, s.batch, q);
      HeldInEither(t.stored, t.batch, q);
    }
  }
}
