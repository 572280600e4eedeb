/**
 Whole runs of checkpointed polling: puts, removals, polls, and the ingestion loop (ingestionService.ts),
 which hands the files of a poll to processing slice by slice and stores their checkpoints one by one
 afterwards, in any interleaving, and which may be paused or die at any point.
 */
module PollingRuns {
  import opened Wrappers
  import opened UploadPoller

  /**
   The environment of a run that does not change: the clock, the table of supported extensions, and how
   many files are processed together.
   */
  datatype Setup = Setup(clock: Clock, mimeOf: string -> Option<string>, concurrency: nat)

  /**
   `batch` is the rest of the last poll's files, of which the first `begun` are in processing or processed
   and wait for their checkpoints to be stored. The three logs record, over the whole history, what was
   handed to processing, what was stored, and what was in processing when a run was given up.
   */
  datatype State = State(
    bucket: map<string, int>,
    checkpoint: Option<string>,
    batch: seq<IngestedFile>,
    begun: nat,
    started: seq<IngestedFile>,
    stored: seq<IngestedFile>,
    dropped: seq<IngestedFile>)

  datatype Event =
    | Put(key: string, ms: int)
    | Remove(key: string)
    | Poll(listing: seq<ObjectRef>, bodies: map<string, string>)
    | Begin       // process the next slice of files, all of them together
    | Store       // store the checkpoint of the next processed file
    | Abandon     // the run is paused, throws or dies

  ghost predicate Lists(listing: seq<ObjectRef>, bucket: map<string, int>) {
    DistinctRefs(listing) && forall o :: o in listing <==> o.key in bucket && bucket[o.key] == o.ms
  }

  ghost predicate Enabled(s: State, e: Event) {
    match e
    case Poll(listing, _) => Lists(listing, s.bucket)
    case Begin => s.batch != [] && s.begun == 0
    case Store => s.begun > 0
    case _ => true
  }

  function Slice(p: Setup, s: State): nat {
    if p.concurrency < |s.batch| then p.concurrency else |s.batch|
  }

  /** The files in processing, or processed and not stored. */
  function InFlight(s: State): seq<IngestedFile> {
    s.batch[..if s.begun <= |s.batch| then s.begun else |s.batch|]
  }

  /** A poll starts a new run, so it too gives up what an earlier one left in flight. */
  function Step(p: Setup, s: State, e: Event): State {
    match e
    case Put(key, ms) => s.(bucket := s.bucket[key := ms])
    case Remove(key) => s.(bucket := s.bucket - {key})
    case Poll(listing, bodies) =>
      s.(batch := NewFiles(p.clock, listing, s.checkpoint, p.mimeOf, bodies), begun := 0, dropped := s.dropped + InFlight(s))
    case Begin => s.(begun := Slice(p, s), started := s.started + s.batch[..Slice(p, s)])
    case Store =>
      if s.batch == [] || s.begun == 0 then s
      else s.(checkpoint := Some(s.batch[0].checkpointValue), batch := s.batch[1..], begun := s.begun - 1,
              stored := s.stored + [s.batch[0]])
    case Abandon => s.(batch := [], begun := 0, dropped := s.dropped + InFlight(s))
  }

  function Run(p: Setup, s: State, events: seq<Event>): State {
    if events == [] then s else Step(p, Run(p, s, events[..|events| - 1]), events[|events| - 1])
  }

  ghost predicate Possible(p: Setup, s: State, events: seq<Event>) {
    forall i | 0 <= i < |events| :: Enabled(Run(p, s, events[..i]), events[i])
  }

  lemma {:induction false} PossiblePrefix(p: Setup, s: State, events: seq<Event>)
    requires events != [] && Possible(p, s, events)
    ensures var front := events[..|events| - 1];
      Possible(p, s, front) && Enabled(Run(p, s, front), events[|events| - 1])
  {
    var front := events[..|events| - 1];
    forall i | 0 <= i < |front| ensures Enabled(Run(p, s, front[..i]), front[i]) {
      assert front[..i] == events[..i];
    }
  }

  // ----- stored checkpoints ascend

  function MarkOf(p: Setup, s: State): Mark {
    ParseCheckpoint(p.clock, s.checkpoint)
  }

  ghost predicate Genuine(p: Setup, f: IngestedFile) {
    f.checkpointValue == EncodeCheckpoint(p.clock, f.ref)
  }

  /**
   The stored files ascend and end at the checkpoint, the outstanding batch ascends from there, and no more
   than a slice of it is in flight.
   */
  ghost predicate InOrder(p: Setup, s: State) {
    && Ascending(s.stored) && Ascending(s.batch)
    && (forall f | f in s.batch :: Genuine(p, f) && After(MarkOf(p, s), f.ref))
    && (s.stored != [] ==> MarkOf(p, s) == At(s.stored[|s.stored| - 1].ref))
    && s.begun <= |s.batch| && s.begun <= p.concurrency
  }

  /** Nothing is outstanding and nothing has happened yet; the stored checkpoint may be any. */
  predicate Fresh(s: State) {
    s.batch == [] && s.begun == 0 && s.started == [] && s.stored == [] && s.dropped == []
  }

  lemma {:induction false} NextExtends(files: seq<IngestedFile>, f: IngestedFile)
    requires Ascending(files) && (files != [] ==> Before(files[|files| - 1].ref, f.ref))
    ensures Ascending(files + [f])
  {
    var last := |files| - 1;
    forall i | 0 <= i <= last ensures Before(files[i].ref, f.ref) {
      PositionOrder(files[i].ref, files[last].ref, f.ref);
    }
  }

  /** A stored checkpoint is the stored file's position, and never the marker already stored. */
  lemma {:induction false} StoredMark(p: Setup, s: State)
    requires Faithful(p.clock) && InOrder(p, s) && s.begun > 0
    ensures MarkOf(p, Step(p, s, Store)) == At(s.batch[0].ref) && After(MarkOf(p, s), s.batch[0].ref)
    ensures Some(s.batch[0].checkpointValue) != s.checkpoint
  {
    var f := s.batch[0];
    assert f in s.batch;
    CheckpointRoundTrips(p.clock, f.ref);
    PositionOrder(f.ref, f.ref, f.ref);
  }

  lemma {:induction false} RestIsBeyond(files: seq<IngestedFile>)
    requires Ascending(files) && files != []
    ensures Ascending(files[1..]) && forall g | g in files[1..] :: g in files && Before(files[0].ref, g.ref)
  {
    forall g | g in files[1..] ensures g in files && Before(files[0].ref, g.ref) {
      TailIsBeyond(files, 1, g);
    }
  }

  lemma {:induction false} StoreKeepsOrder(p: Setup, s: State)
    requires Faithful(p.clock) && InOrder(p, s) && s.begun > 0
    ensures InOrder(p, Step(p, s, Store))
  {
    StoredMark(p, s);
    RestIsBeyond(s.batch);
    NextExtends(s.stored, s.batch[0]);
  }

  lemma {:induction false} PollKeepsOrder(p: Setup, s: State, listing: seq<ObjectRef>, bodies: map<string, string>)
    requires InOrder(p, s) && Lists(listing, s.bucket)
    ensures InOrder(p, Step(p, s, Poll(listing, bodies)))
  {
    PollIsExact(p.clock, listing, s.checkpoint, p.mimeOf, bodies);
  }

  lemma {:induction false} StepKeepsOrder(p: Setup, s: State, e: Event)
    requires Faithful(p.clock) && InOrder(p, s) && Enabled(s, e)
    ensures InOrder(p, Step(p, s, e))
  {
    match e
    case Store => StoreKeepsOrder(p, s);
    case Poll(listing, bodies) => PollKeepsOrder(p, s, listing, bodies);
    case _ =>
  }

  lemma {:induction false} OrderIsKept(p: Setup, s: State, events: seq<Event>)
    requires Faithful(p.clock) && InOrder(p, s) && Possible(p, s, events)
    ensures InOrder(p, Run(p, s, events))
  {
    if events != [] {
      PossiblePrefix(p, s, events);
      OrderIsKept(p, s, events[..|events| - 1]);
      StepKeepsOrder(p, Run(p, s, events[..|events| - 1]), events[|events| - 1]);
    }
  }

  /**
   In every run, from any stored checkpoint, whatever is abandoned, the stored checkpoints strictly ascend:
   none is stored twice.
   */
  lemma {:induction false} CheckpointsAscend(p: Setup, s: State, events: seq<Event>)
    requires Faithful(p.clock) && Fresh(s) && Possible(p, s, events)
    ensures InOrder(p, Run(p, s, events))
    ensures forall i, j | 0 <= i < j < |Run(p, s, events).stored| ::
      Run(p, s, events).stored[i].ref != Run(p, s, events).stored[j].ref
  {
    OrderIsKept(p, s, events);
    var files := Run(p, s, events).stored;
    forall i, j | 0 <= i < j < |files| ensures files[i].ref != files[j].ref {
      PositionOrder(files[i].ref, files[j].ref, files[i].ref);
    }
  }

  ghost predicate Held(files: seq<IngestedFile>, o: ObjectRef) {
    exists f | f in files :: f.ref == o
  }

  /** What is stored lies at or before the checkpoint. */
  lemma {:induction false} StoredIsNotAfterMark(p: Setup, s: State, o: ObjectRef)
    requires InOrder(p, s) && After(MarkOf(p, s), o)
    ensures !Held(s.stored, o)
  {
    if Held(s.stored, o) {
      var f :| f in s.stored && f.ref == o;
      var i :| 0 <= i < |s.stored| && s.stored[i] == f;
      var last := |s.stored| - 1;
      PositionOrder(s.stored[i].ref, s.stored[last].ref, o);
      PositionOrder(o, o, o);
    }
  }

  // ----- a run that nothing interrupts

  lemma {:induction false} RunConcat(p: Setup, s: State, a: seq<Event>, b: seq<Event>)
    ensures Run(p, s, a + b) == Run(p, Run(p, s, a), b)
  {
    if b == [] {
      assert a + b == a;
    } else {
      var n := |b| - 1;
      assert (a + b)[..|a| + n] == a + b[..n];
      RunConcat(p, s, a, b[..n]);
    }
  }

  lemma {:induction false} PossibleConcat(p: Setup, s: State, a: seq<Event>, b: seq<Event>)
    requires Possible(p, s, a) && Possible(p, Run(p, s, a), b)
    ensures Possible(p, s, a + b)
  {
    forall i | 0 <= i < |a + b| ensures Enabled(Run(p, s, (a + b)[..i]), (a + b)[i]) {
      if i < |a| {
        assert (a + b)[..i] == a[..i];
      } else {
        assert (a + b)[..i] == a + b[..i - |a|];
        RunConcat(p, s, a, b[..i - |a|]);
      }
    }
  }

  lemma {:induction false} SingleStep(p: Setup, s: State, e: Event)
    requires Enabled(s, e)
    ensures Possible(p, s, [e]) && Run(p, s, [e]) == Step(p, s, e)
  {
    assert [e][..0] == [];
  }

  /** What the loop does when nothing interrupts it: the rest of the slice in flight, then slice after slice. */
  function LoopEvents(p: Setup, outstanding: nat, begun: nat): seq<Event>
    requires p.concurrency > 0 && begun <= outstanding
    decreases outstanding, begun == 0
  {
    if outstanding == 0 then []
    else if begun > 0 then [Store] + LoopEvents(p, outstanding - 1, begun - 1)
    else [Begin] + LoopEvents(p, outstanding, if p.concurrency < outstanding then p.concurrency else outstanding)
  }

  function LoopEvent(s: State): Event {
    if s.begun > 0 then Store else Begin
  }

  lemma {:induction false} LoopStep(p: Setup, s: State)
    requires p.concurrency > 0 && s.begun <= |s.batch| && s.batch != []
    ensures var t := Step(p, s, LoopEvent(s));
      && Enabled(s, LoopEvent(s)) && t.begun <= |t.batch|
      && LoopEvents(p, |s.batch|, s.begun) == [LoopEvent(s)] + LoopEvents(p, |t.batch|, t.begun)
      && (|t.batch| < |s.batch| || (|t.batch| == |s.batch| && s.begun == 0 < t.begun))
  {
  }

  /** `t` has processed and stored every file outstanding in `s` once, in order, and given nothing up. */
  ghost predicate StoredAll(s: State, t: State)
    requires s.begun <= |s.batch|
  {
    && t.batch == [] && t.begun == 0
    && t.stored == s.stored + s.batch && t.started == s.started + s.batch[s.begun..]
    && t.dropped == s.dropped && t.bucket == s.bucket
  }

  lemma {:induction false} StoredAllBefore(p: Setup, s: State, t: State)
    requires p.concurrency > 0 && s.begun <= |s.batch| && s.batch != []
    requires var mid := Step(p, s, LoopEvent(s)); mid.begun <= |mid.batch| && StoredAll(mid, t)
    ensures StoredAll(s, t)
  {
    if s.begun > 0 { StoreLogs(p, s); } else { BeginLogs(p, s); }
  }

  /** A run that nothing interrupts processes and stores every outstanding file once. */
  lemma {:induction false} UninterruptedRunStoresAll(p: Setup, s: State)
    requires p.concurrency > 0 && s.begun <= |s.batch|
    ensures var events := LoopEvents(p, |s.batch|, s.begun);
      Possible(p, s, events) && StoredAll(s, Run(p, s, events))
    decreases |s.batch|, s.begun == 0
  {
    if s.batch == [] {
      assert s.batch[s.begun..] == [];
    } else {
      var e := LoopEvent(s);
      var t := Step(p, s, e);
      LoopStep(p, s);
      UninterruptedRunStoresAll(p, t);
      FirstStep(p, s, e, LoopEvents(p, |t.batch|, t.begun));
      StoredAllBefore(p, s, Run(p, t, LoopEvents(p, |t.batch|, t.begun)));
    }
  }

  lemma {:induction false} FirstStep(p: Setup, s: State, e: Event, rest: seq<Event>)
    requires Enabled(s, e) && Possible(p, Step(p, s, e), rest)
    ensures Possible(p, s, [e] + rest) && Run(p, s, [e] + rest) == Run(p, Step(p, s, e), rest)
  {
    SingleStep(p, s, e);
    RunConcat(p, s, [e], rest);
    PossibleConcat(p, s, [e], rest);
  }

  lemma {:induction false} StoreLogs(p: Setup, s: State)
    requires 0 < s.begun <= |s.batch|
    ensures var t := Step(p, s, Store);
      && t.stored + t.batch == s.stored + s.batch
      && t.started == s.started && t.batch[t.begun..] == s.batch[s.begun..]
  {
    assert s.batch == [s.batch[0]] + s.batch[1..];
  }

  lemma {:induction false} BeginLogs(p: Setup, s: State)
    requires s.batch != [] && s.begun == 0
    ensures var t := Step(p, s, Begin);
      t.stored + t.batch == s.stored + s.batch && t.started + t.batch[t.begun..] == s.started + s.batch[s.begun..]
  {
    var n := Slice(p, s);
    assert s.batch == s.batch[..n] + s.batch[n..];
  }
}
