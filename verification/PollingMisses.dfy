/**
 What whole runs of checkpointed polling deliver (S3UploadIngestionSource.ts with ingestionService.ts): which
 single steps leave an object behind for good, and that all others never do.
 */
module PollingMisses {
  import opened UploadPoller
  import opened PollingRuns

  predicate Supported(p: Setup, key: string) {
    p.mimeOf(key).Some?
  }

  /** The last outstanding file, or the checkpoint when there is none. */
  function Frontier(p: Setup, s: State): Mark {
    if s.batch != [] then At(s.batch[|s.batch| - 1].ref) else MarkOf(p, s)
  }

  predicate Passed(p: Setup, s: State, o: ObjectRef) {
    !After(Frontier(p, s), o)
  }

  /** Every supported object of the bucket at or before the frontier is stored or outstanding. */
  ghost predicate NothingMissed(p: Setup, s: State) {
    forall key | key in s.bucket && Supported(p, key) && Passed(p, s, ObjectRef(key, s.bucket[key])) ::
      Held(s.stored + s.batch, ObjectRef(key, s.bucket[key]))
  }

  /** A supported object is put at or before the frontier, at a position that is not held already. */
  ghost predicate LandsBehind(p: Setup, s: State, key: string, ms: int) {
    && Supported(p, key)
    && !After(Frontier(p, s), ObjectRef(key, ms))
    && !Held(s.stored + s.batch, ObjectRef(key, ms))
  }

  predicate Readable(p: Setup, o: ObjectRef, bodies: map<string, string>) {
    Supported(p, o.key) && o.key in bodies
  }

  /** Beyond an unreadable supported object after the mark lies a readable one. */
  ghost predicate HasGap(p: Setup, mark: Mark, listing: seq<ObjectRef>, bodies: map<string, string>) {
    exists o, q | o in listing && q in listing ::
      After(mark, o) && Supported(p, o.key) && o.key !in bodies && Readable(p, q, bodies) && Before(o, q)
  }

  /** The two steps that leave something behind, told from the state and the event alone. */
  ghost predicate LeavesBehind(p: Setup, s: State, e: Event) {
    match e
    case Put(key, ms) => LandsBehind(p, s, key, ms)
    case Poll(listing, bodies) => HasGap(p, MarkOf(p, s), listing, bodies)
    case _ => false
  }

  // ----- puts

  lemma {:induction false} PutMissesNothingIff(p: Setup, s: State, key: string, ms: int)
    requires NothingMissed(p, s)
    ensures NothingMissed(p, Step(p, s, Put(key, ms))) <==> !LandsBehind(p, s, key, ms)
  {
    var t := Step(p, s, Put(key, ms));
    assert Frontier(p, t) == Frontier(p, s);
    if !LandsBehind(p, s, key, ms) {
      forall k | k in t.bucket && Supported(p, k) && Passed(p, t, ObjectRef(k, t.bucket[k]))
        ensures Held(t.stored + t.batch, ObjectRef(k, t.bucket[k]))
      {
        assert k != key ==> k in s.bucket;
      }
    }
  }

  // ----- polls

  lemma {:induction false} NotAfterMarkNotBefore(mark: Mark, a: ObjectRef, b: ObjectRef)
    requires After(mark, a) && !After(mark, b)
    ensures !Before(a, b)
  {
    if Before(a, b) {
      AfterMarkTransitively(mark, a, b);
    }
  }

  /** What the checkpoint has passed lies before the whole outstanding batch. */
  lemma {:induction false} OldIsPassed(p: Setup, s: State, o: ObjectRef)
    requires InOrder(p, s) && !After(MarkOf(p, s), o)
    ensures Passed(p, s, o) && !Held(s.batch, o)
  {
    if s.batch != [] {
      var last := s.batch[|s.batch| - 1];
      assert last in s.batch;
      NotAfterMarkNotBefore(MarkOf(p, s), last.ref, o);
    }
  }

  lemma {:induction false} HeldInEither(a: seq<IngestedFile>, b: seq<IngestedFile>, o: ObjectRef)
    ensures Held(a + b, o) <==> Held(a, o) || Held(b, o)
  {
    if Held(a, o) {
      var f :| f in a && f.ref == o;
      assert f in a + b;
    }
    if Held(b, o) {
      var f :| f in b && f.ref == o;
      assert f in a + b;
    }
  }

  /** After a poll, what lies beyond the old mark is held exactly when it is listed and readable. */
  lemma {:induction false} PolledIsReadable(p: Setup, s: State, listing: seq<ObjectRef>, bodies: map<string, string>, o: ObjectRef)
    requires InOrder(p, s) && Lists(listing, s.bucket) && o in listing && After(MarkOf(p, s), o)
    ensures var t := Step(p, s, Poll(listing, bodies));
      Held(t.stored + t.batch, o) <==> Readable(p, o, bodies)
  {
    var t := Step(p, s, Poll(listing, bodies));
    PollIsExact(p.clock, listing, s.checkpoint, p.mimeOf, bodies);
    StoredIsNotAfterMark(p, s, o);
    HeldInEither(t.stored, t.batch, o);
    if Readable(p, o, bodies) {
      var f := Ingest(p.clock, o, p.mimeOf, bodies).value;
      assert f in t.batch && f.ref == o;
    }
  }

  lemma {:induction false} OrderChain(a: ObjectRef, b: ObjectRef, c: ObjectRef)
    requires AtOrBefore(a, b) && AtOrBefore(b, c)
    ensures !Before(c, a)
  {
    PositionOrder(a, b, c);
    PositionOrder(a, c, a);
    PositionOrder(c, a, b);
    PositionOrder(c, b, c);
  }

  lemma {:induction false} LastIsLast(files: seq<IngestedFile>, f: IngestedFile)
    requires Ascending(files) && f in files
    ensures AtOrBefore(f.ref, files[|files| - 1].ref)
  {
    var i :| 0 <= i < |files| && files[i] == f;
    if i < |files| - 1 { assert Before(files[i].ref, files[|files| - 1].ref); }
  }

  /** The batch of a poll reaches every readable object beyond the mark. */
  lemma {:induction false} BatchReaches(p: Setup, s: State, listing: seq<ObjectRef>, bodies: map<string, string>, q: ObjectRef, o: ObjectRef)
    requires q in listing && After(MarkOf(p, s), q) && Readable(p, q, bodies) && AtOrBefore(o, q) && DistinctRefs(listing)
    ensures Passed(p, Step(p, s, Poll(listing, bodies)), o)
  {
    var batch := NewFiles(p.clock, listing, s.checkpoint, p.mimeOf, bodies);
    PollIsExact(p.clock, listing, s.checkpoint, p.mimeOf, bodies);
    var f := Ingest(p.clock, q, p.mimeOf, bodies).value;
    assert f in batch;
    LastIsLast(batch, f);
    OrderChain(o, q, batch[|batch| - 1].ref);
  }

  /** What the batch of a poll reaches lies at or before a readable object: its last file. */
  lemma {:induction false} ReachedBatch(p: Setup, s: State, listing: seq<ObjectRef>, bodies: map<string, string>, o: ObjectRef)
    returns (q: ObjectRef)
    requires DistinctRefs(listing) && After(MarkOf(p, s), o) && Passed(p, Step(p, s, Poll(listing, bodies)), o)
    ensures q in listing && Readable(p, q, bodies) && AtOrBefore(o, q)
  {
    var batch := NewFiles(p.clock, listing, s.checkpoint, p.mimeOf, bodies);
    PollIsExact(p.clock, listing, s.checkpoint, p.mimeOf, bodies);
    assert batch[|batch| - 1] in batch;
    q := batch[|batch| - 1].ref;
    PositionOrder(o, q, o);
  }

  lemma {:induction false} GaplessPollMissesNothing(p: Setup, s: State, listing: seq<ObjectRef>, bodies: map<string, string>, o: ObjectRef)
    requires InOrder(p, s) && NothingMissed(p, s) && Lists(listing, s.bucket) && !HasGap(p, MarkOf(p, s), listing, bodies)
    requires var t := Step(p, s, Poll(listing, bodies)); o in listing && Supported(p, o.key) && Passed(p, t, o)
    ensures var t := Step(p, s, Poll(listing, bodies)); Held(t.stored + t.batch, o)
  {
    var t := Step(p, s, Poll(listing, bodies));
    if After(MarkOf(p, s), o) {
      var q := ReachedBatch(p, s, listing, bodies, o);
      PolledIsReadable(p, s, listing, bodies, o);
    } else {
      OldIsPassed(p, s, o);
      assert o.key in s.bucket && ObjectRef(o.key, s.bucket[o.key]) == o;
      HeldInEither(s.stored, s.batch, o);
      HeldInEither(t.stored, t.batch, o);
    }
  }

  lemma {:induction false} GapMisses(p: Setup, s: State, listing: seq<ObjectRef>, bodies: map<string, string>) returns (o: ObjectRef)
    requires InOrder(p, s) && Lists(listing, s.bucket) && HasGap(p, MarkOf(p, s), listing, bodies)
    ensures var t := Step(p, s, Poll(listing, bodies));
      o in listing && Supported(p, o.key) && Passed(p, t, o) && !Held(t.stored + t.batch, o)
  {
    var q;
    o, q :| o in listing && q in listing &&
      After(MarkOf(p, s), o) && Supported(p, o.key) && o.key !in bodies && Readable(p, q, bodies) && Before(o, q);
    AfterMarkTransitively(MarkOf(p, s), o, q);
    BatchReaches(p, s, listing, bodies, q, o);
    PolledIsReadable(p, s, listing, bodies, o);
  }

  /** A poll leaves nothing behind if and only if no unreadable object lies before a readable one. */
  lemma {:induction false} PollMissesNothingIff(p: Setup, s: State, listing: seq<ObjectRef>, bodies: map<string, string>)
    requires InOrder(p, s) && NothingMissed(p, s) && Lists(listing, s.bucket)
    ensures NothingMissed(p, Step(p, s, Poll(listing, bodies))) <==> !HasGap(p, MarkOf(p, s), listing, bodies)
  {
    var t := Step(p, s, Poll(listing, bodies));
    if HasGap(p, MarkOf(p, s), listing, bodies) {
      var o := GapMisses(p, s, listing, bodies);
      assert o.key in t.bucket && ObjectRef(o.key, t.bucket[o.key]) == o;
    } else {
      forall key | key in t.bucket && Supported(p, key) && Passed(p, t, ObjectRef(key, t.bucket[key]))
        ensures Held(t.stored + t.batch, ObjectRef(key, t.bucket[key]))
      {
        assert ObjectRef(key, t.bucket[key]) in listing;
        GaplessPollMissesNothing(p, s, listing, bodies, ObjectRef(key, t.bucket[key]));
      }
    }
  }

  // ----- the other steps

  lemma {:induction false} SamePassedSameHeld(p: Setup, s: State, t: State)
    requires NothingMissed(p, s) && t.bucket == s.bucket && t.stored + t.batch == s.stored + s.batch
    requires forall o | Passed(p, t, o) :: Passed(p, s, o)
    ensures NothingMissed(p, t)
  {
  }

  lemma {:induction false} StorePassesTheSame(p: Setup, s: State, o: ObjectRef)
    requires Faithful(p.clock) && InOrder(p, s) && s.begun > 0
    ensures Passed(p, Step(p, s, Store), o) == Passed(p, s, o)
  {
    assert s.batch[0] in s.batch;
    CheckpointRoundTrips(p.clock, s.batch[0].ref);
  }

  lemma {:induction false} StoreMissesNothing(p: Setup, s: State)
    requires Faithful(p.clock) && InOrder(p, s) && NothingMissed(p, s) && s.begun > 0
    ensures NothingMissed(p, Step(p, s, Store))
  {
    StoreLogs(p, s);
    forall o | Passed(p, Step(p, s, Store), o) ensures Passed(p, s, o) {
      StorePassesTheSame(p, s, o);
    }
    SamePassedSameHeld(p, s, Step(p, s, Store));
  }

  lemma {:induction false} AbandonMissesNothing(p: Setup, s: State)
    requires InOrder(p, s) && NothingMissed(p, s)
    ensures NothingMissed(p, Step(p, s, Abandon))
  {
    var t := Step(p, s, Abandon);
    forall key | key in t.bucket && Supported(p, key) && Passed(p, t, ObjectRef(key, t.bucket[key]))
      ensures Held(t.stored + t.batch, ObjectRef(key, t.bucket[key]))
    {
      var o := ObjectRef(key, t.bucket[key]);
      OldIsPassed(p, s, o);
      HeldInEither(s.stored, s.batch, o);
      HeldInEither(t.stored, t.batch, o);
    }
  }

  /** One step keeps the promise if and only if it is neither a put behind the frontier nor a poll with a gap. */
  lemma {:induction false} StepMissesNothingIff(p: Setup, s: State, e: Event)
    requires Faithful(p.clock) && InOrder(p, s) && NothingMissed(p, s) && Enabled(s, e)
    ensures NothingMissed(p, Step(p, s, e)) <==> !LeavesBehind(p, s, e)
  {
    match e
    case Put(key, ms) => PutMissesNothingIff(p, s, key, ms);
    case Remove(_) => assert forall o :: Passed(p, Step(p, s, e), o) == Passed(p, s, o);
    case Poll(listing, bodies) => PollMissesNothingIff(p, s, listing, bodies);
    case Begin => SamePassedSameHeld(p, s, Step(p, s, Begin));
    case Store => StoreMissesNothing(p, s);
    case Abandon => AbandonMissesNothing(p, s);
  }

  // ----- whole runs

  ghost predicate Benign(p: Setup, s: State, events: seq<Event>) {
    forall i | 0 <= i < |events| :: !LeavesBehind(p, Run(p, s, events[..i]), events[i])
  }

  lemma {:induction false} BenignPrefix(p: Setup, s: State, events: seq<Event>)
    requires events != [] && Benign(p, s, events)
    ensures Benign(p, s, events[..|events| - 1])
    ensures !LeavesBehind(p, Run(p, s, events[..|events| - 1]), events[|events| - 1])
  {
    var front := events[..|events| - 1];
    forall i | 0 <= i < |front| ensures !LeavesBehind(p, Run(p, s, front[..i]), front[i]) {
      assert front[..i] == events[..i];
    }
  }

  lemma {:induction false} NothingIsMissed(p: Setup, s: State, events: seq<Event>)
    requires Faithful(p.clock) && InOrder(p, s) && NothingMissed(p, s)
    requires Possible(p, s, events) && Benign(p, s, events)
    ensures NothingMissed(p, Run(p, s, events))
  {
    if events != [] {
      var front := events[..|events| - 1];
      PossiblePrefix(p, s, events);
      BenignPrefix(p, s, events);
      OrderIsKept(p, s, front);
      NothingIsMissed(p, s, front);
      StepMissesNothingIff(p, Run(p, s, front), events[|events| - 1]);
    }
  }

  /**
   In every run from an empty checkpoint without such steps, however often it is abandoned, every supported
   object in the bucket at or before the checkpoint has been processed and stored.
   */
  lemma {:induction false} BenignRunsDeliverEverything(p: Setup, s: State, events: seq<Event>)
    requires Faithful(p.clock) && Fresh(s) && MarkOf(p, s).Start?
    requires Possible(p, s, events) && Benign(p, s, events)
    ensures var t := Run(p, s, events);
      forall key | key in t.bucket && Supported(p, key) && !After(MarkOf(p, t), ObjectRef(key, t.bucket[key])) ::
        Held(t.stored, ObjectRef(key, t.bucket[key]))
  {
    OrderIsKept(p, s, events);
    NothingIsMissed(p, s, events);
    var t := Run(p, s, events);
    forall key | key in t.bucket && Supported(p, key) && !After(MarkOf(p, t), ObjectRef(key, t.bucket[key]))
      ensures Held(t.stored, ObjectRef(key, t.bucket[key]))
    {
      var o := ObjectRef(key, t.bucket[key]);
      OldIsPassed(p, t, o);
      HeldInEither(t.stored, t.batch, o);
    }
  }

  // ----- what is left behind stays behind

  lemma {:induction false} CheckpointMovesForward(p: Setup, s: State, o: ObjectRef)
    requires Faithful(p.clock) && InOrder(p, s) && s.begun > 0
    requires !After(MarkOf(p, s), o) && !Held(s.stored, o)
    ensures !After(MarkOf(p, Step(p, s, Store)), o) && !Held(Step(p, s, Store).stored, o)
  {
    var f := s.batch[0];
    assert f in s.batch;
    OldIsPassed(p, s, o);
    CheckpointRoundTrips(p.clock, f.ref);
    NotAfterMarkNotBefore(MarkOf(p, s), f.ref, o);
    HeldInEither(s.stored, [f], o);
  }

  /** No step hands what the checkpoint has passed to processing. */
  lemma {:induction false} PassedIsNotBegun(p: Setup, s: State, e: Event, o: ObjectRef)
    requires Faithful(p.clock) && InOrder(p, s) && Enabled(s, e) && !After(MarkOf(p, s), o) && !Held(s.stored, o)
    ensures var t := Step(p, s, e);
      !After(MarkOf(p, t), o) && !Held(t.stored, o) && (Held(t.started, o) <==> Held(s.started, o))
  {
    if e.Store? {
      CheckpointMovesForward(p, s, o);
    }
    if e.Begin? {
      OldIsPassed(p, s, o);
      var slice := s.batch[..Slice(p, s)];
      assert Held(slice, o) ==> Held(s.batch, o);
      HeldInEither(s.started, slice, o);
    }
  }

  /** What the checkpoint has passed unstored is never stored, nor handed to processing again, in any continuation. */
  lemma {:induction false} MissedIsLostForever(p: Setup, s: State, events: seq<Event>, o: ObjectRef)
    requires Faithful(p.clock) && InOrder(p, s) && Possible(p, s, events)
    requires !After(MarkOf(p, s), o) && !Held(s.stored, o)
    ensures var t := Run(p, s, events);
      !After(MarkOf(p, t), o) && !Held(t.stored, o) && (Held(t.started, o) <==> Held(s.started, o))
  {
    if events != [] {
      var front := events[..|events| - 1];
      PossiblePrefix(p, s, events);
      MissedIsLostForever(p, s, front, o);
      OrderIsKept(p, s, front);
      PassedIsNotBegun(p, Run(p, s, front), events[|events| - 1], o);
    }
  }

  /**
   A put that lands after the checkpoint but not after a file in flight is lost: the hypothesis that puts
   land after the checkpoint alone is not enough.
   */
  lemma {:induction false} PutDuringASliceIsLost(p: Setup, s: State, o: ObjectRef)
    requires Faithful(p.clock) && InOrder(p, s) && s.begun > 0
    requires After(MarkOf(p, s), o) && Before(o, s.batch[0].ref)
    ensures var t := Run(p, s, [Put(o.key, o.ms), Store]);
      o.key in t.bucket && t.bucket[o.key] == o.ms && !After(MarkOf(p, t), o) && !Held(t.stored, o)
  {
    var f, put := s.batch[0], Step(p, s, Put(o.key, o.ms));
    assert f in s.batch;
    SingleStep(p, s, Put(o.key, o.ms));
    SingleStep(p, put, Store);
    RunConcat(p, s, [Put(o.key, o.ms)], [Store]);
    assert [Put(o.key, o.ms)] + [Store] == [Put(o.key, o.ms), Store];
    CheckpointRoundTrips(p.clock, f.ref);
    PositionOrder(o, f.ref, o);
    PositionOrder(f.ref, o, f.ref);
    StoredIsNotAfterMark(p, s, o);
    HeldInEither(s.stored, [f], o);
  }
}
