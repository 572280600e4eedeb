/**
 How often an uploaded file is processed over whole runs (ingestionService.ts): a slice is processed before
 its checkpoints are stored, so what is in flight when a run is given up can be processed again.
 */
module PollingRepeats {
  import opened UploadPoller
  import opened PollingRuns

  function Count(files: seq<IngestedFile>, o: ObjectRef): nat {
    if files == [] then 0
    else Count(files[..|files| - 1], o) + (if files[|files| - 1].ref == o then 1 else 0)
  }

  lemma {:induction false} CountConcat(a: seq<IngestedFile>, b: seq<IngestedFile>, o: ObjectRef)
    ensures Count(a + b, o) == Count(a, o) + Count(b, o)
  {
    if b == [] {
      assert a + b == a;
    } else {
      assert (a + b)[..|a + b| - 1] == a + b[..|b| - 1];
      CountConcat(a, b[..|b| - 1], o);
    }
  }

  lemma {:induction false} CountIsPositive(files: seq<IngestedFile>, o: ObjectRef)
    ensures Count(files, o) > 0 <==> Held(files, o)
  {
    if files != [] {
      var front, last := files[..|files| - 1], files[|files| - 1];
      assert files == front + [last];
      CountIsPositive(front, o);
      if Held(files, o) {
        var f :| f in files && f.ref == o;
        assert f in front || f == last;
      }
    }
  }

  lemma {:induction false} AscendingCountsOnce(files: seq<IngestedFile>, o: ObjectRef)
    requires Ascending(files)
    ensures Count(files, o) <= 1
  {
    if files != [] {
      var front, last := files[..|files| - 1], files[|files| - 1];
      AscendingCountsOnce(front, o);
      CountIsPositive(front, o);
      if Count(front, o) > 0 {
        var f :| f in front && f.ref == o;
        PositionOrder(o, o, o);
      }
    }
  }

  // ----- every processing is accounted for

  /** What was handed to processing was stored, is in flight, or was given up; each as often as it was. */
  ghost predicate Conserved(s: State) {
    && |s.started| == |s.stored| + |InFlight(s)| + |s.dropped|
    && forall o :: Count(s.started, o) == Count(s.stored, o) + Count(InFlight(s), o) + Count(s.dropped, o)
  }

  lemma {:induction false} BeginConserves(p: Setup, s: State)
    requires InOrder(p, s) && Conserved(s) && Enabled(s, Begin)
    ensures Conserved(Step(p, s, Begin))
  {
    var t, slice := Step(p, s, Begin), s.batch[..Slice(p, s)];
    assert InFlight(s) == [] && InFlight(t) == slice;
    forall o ensures Count(t.started, o) == Count(t.stored, o) + Count(InFlight(t), o) + Count(t.dropped, o) {
      CountConcat(s.started, slice, o);
    }
  }

  lemma {:induction false} StoreConserves(p: Setup, s: State)
    requires InOrder(p, s) && Conserved(s) && Enabled(s, Store)
    ensures Conserved(Step(p, s, Store))
  {
    var t, f := Step(p, s, Store), s.batch[0];
    assert InFlight(s) == [f] + InFlight(t);
    forall o ensures Count(t.started, o) == Count(t.stored, o) + Count(InFlight(t), o) + Count(t.dropped, o) {
      CountConcat([f], InFlight(t), o);
      CountConcat(s.stored, [f], o);
    }
  }

  /** A run is given up: paused, thrown out of, dead, or superseded by the next poll. */
  predicate GivesUp(e: Event) {
    e.Abandon? || e.Poll?
  }

  lemma {:induction false} GivingUpConserves(p: Setup, s: State, e: Event)
    requires Conserved(s) && GivesUp(e)
    ensures Conserved(Step(p, s, e))
  {
    var t := Step(p, s, e);
    assert InFlight(t) == [];
    forall o ensures Count(t.started, o) == Count(t.stored, o) + Count(InFlight(t), o) + Count(t.dropped, o) {
      CountConcat(s.dropped, InFlight(s), o);
    }
  }

  lemma {:induction false} StepConserves(p: Setup, s: State, e: Event)
    requires InOrder(p, s) && Conserved(s) && Enabled(s, e)
    ensures Conserved(Step(p, s, e))
  {
    match e
    case Begin => BeginConserves(p, s);
    case Store => StoreConserves(p, s);
    case Poll(_, _) => GivingUpConserves(p, s, e);
    case Abandon => GivingUpConserves(p, s, e);
    case _ => assert InFlight(Step(p, s, e)) == InFlight(s);
  }

  /** In every run, each processing is stored, in flight or given up, each exactly as often. */
  lemma {:induction false} ProcessingIsConserved(p: Setup, s: State, events: seq<Event>)
    requires Faithful(p.clock) && Fresh(s) && Possible(p, s, events)
    ensures InOrder(p, Run(p, s, events)) && Conserved(Run(p, s, events))
  {
    if events == [] {
      assert InFlight(s) == [];
    } else {
      var front := events[..|events| - 1];
      PossiblePrefix(p, s, events);
      ProcessingIsConserved(p, s, front);
      StepKeepsOrder(p, Run(p, s, front), events[|events| - 1]);
      StepConserves(p, Run(p, s, front), events[|events| - 1]);
    }
  }

  // ----- what is processed twice

  /** The step hands `o` to processing. */
  ghost predicate Begins(p: Setup, s: State, e: Event, o: ObjectRef) {
    e.Begin? && Held(s.batch[..Slice(p, s)], o)
  }

  /** The step gives up a run while `o` is in processing, or processed and not stored. */
  ghost predicate Drops(s: State, e: Event, o: ObjectRef) {
    GivesUp(e) && Held(InFlight(s), o)
  }

  /** A step hands a file to processing at most once, and counts it exactly when it does. */
  lemma {:induction false} StepCounts(p: Setup, s: State, e: Event, o: ObjectRef)
    requires InOrder(p, s)
    ensures Count(Step(p, s, e).started, o) == Count(s.started, o) + (if Begins(p, s, e, o) then 1 else 0)
  {
    if e.Begin? {
      var slice := s.batch[..Slice(p, s)];
      CountConcat(s.started, slice, o);
      CountIsPositive(slice, o);
      AscendingCountsOnce(slice, o);
    }
  }

  lemma {:induction false} StepDrops(p: Setup, s: State, e: Event, o: ObjectRef)
    ensures Count(Step(p, s, e).dropped, o) > 0 <==> Count(s.dropped, o) > 0 || Drops(s, e, o)
  {
    if GivesUp(e) {
      CountConcat(s.dropped, InFlight(s), o);
      CountIsPositive(InFlight(s), o);
    }
  }

  /** What is stored is in no later batch. */
  lemma {:induction false} StoredIsNotOutstanding(p: Setup, s: State, o: ObjectRef)
    requires InOrder(p, s) && Count(s.batch, o) > 0
    ensures Count(s.stored, o) == 0
  {
    CountIsPositive(s.batch, o);
    CountIsPositive(s.stored, o);
    StoredIsNotAfterMark(p, s, o);
  }

  /** A step processes a file again exactly when an earlier run was given up with that file in flight. */
  lemma {:induction false} BeginsAgainIffDropped(p: Setup, s: State, e: Event, o: ObjectRef)
    requires InOrder(p, s) && Conserved(s) && Enabled(s, e) && Begins(p, s, e, o)
    ensures Count(s.started, o) > 0 <==> Count(s.dropped, o) > 0
  {
    var n := Slice(p, s);
    assert s.batch == s.batch[..n] + s.batch[n..];
    CountConcat(s.batch[..n], s.batch[n..], o);
    CountIsPositive(s.batch[..n], o);
    StoredIsNotOutstanding(p, s, o);
    assert InFlight(s) == [];
  }

  ghost predicate DroppedAt(p: Setup, s: State, events: seq<Event>, j: nat, o: ObjectRef) {
    j < |events| && Drops(Run(p, s, events[..j]), events[j], o)
  }

  ghost predicate BegunAt(p: Setup, s: State, events: seq<Event>, i: nat, o: ObjectRef) {
    i < |events| && Begins(p, Run(p, s, events[..i]), events[i], o)
  }

  ghost predicate BegunAfterDrop(p: Setup, s: State, events: seq<Event>, o: ObjectRef) {
    exists j: nat, i: nat | j < i :: DroppedAt(p, s, events, j, o) && BegunAt(p, s, events, i, o)
  }

  lemma {:induction false} AtPrefix(p: Setup, s: State, events: seq<Event>, k: nat, o: ObjectRef)
    requires events != [] && k < |events| - 1
    ensures var front := events[..|events| - 1];
      && (DroppedAt(p, s, front, k, o) <==> DroppedAt(p, s, events, k, o))
      && (BegunAt(p, s, front, k, o) <==> BegunAt(p, s, events, k, o))
  {
    assert events[..|events| - 1][..k] == events[..k];
  }

  /** The log of drops, event by event. */
  lemma {:induction false} DroppedIffSomeDrop(p: Setup, s: State, events: seq<Event>, o: ObjectRef)
    requires s.dropped == []
    ensures Count(Run(p, s, events).dropped, o) > 0 <==> exists j: nat :: DroppedAt(p, s, events, j, o)
  {
    if events != [] {
      var n := |events| - 1;
      DroppedIffSomeDrop(p, s, events[..n], o);
      StepDrops(p, Run(p, s, events[..n]), events[n], o);
      forall j: nat | j < n ensures DroppedAt(p, s, events[..n], j, o) <==> DroppedAt(p, s, events, j, o) {
        AtPrefix(p, s, events, j, o);
      }
      assert DroppedAt(p, s, events, n, o) <==> Drops(Run(p, s, events[..n]), events[n], o);
    }
  }

  lemma {:induction false} LastBeginsAgain(p: Setup, s: State, events: seq<Event>, o: ObjectRef)
    requires Faithful(p.clock) && Fresh(s) && events != [] && Possible(p, s, events)
    requires BegunAt(p, s, events, |events| - 1, o)
    ensures Count(Run(p, s, events[..|events| - 1]).started, o) > 0 <==> exists j: nat | j < |events| - 1 :: DroppedAt(p, s, events, j, o)
  {
    var n := |events| - 1;
    var front := events[..n];
    PossiblePrefix(p, s, events);
    ProcessingIsConserved(p, s, front);
    BeginsAgainIffDropped(p, Run(p, s, front), events[n], o);
    DroppedIffSomeDrop(p, s, front, o);
    forall j: nat | j < n ensures DroppedAt(p, s, front, j, o) <==> DroppedAt(p, s, events, j, o) {
      AtPrefix(p, s, events, j, o);
    }
  }

  lemma {:induction false} PairInPrefix(p: Setup, s: State, events: seq<Event>, j: nat, i: nat, o: ObjectRef)
    requires j < i < |events| - 1
    ensures var front := events[..|events| - 1];
      DroppedAt(p, s, front, j, o) && BegunAt(p, s, front, i, o) <==> DroppedAt(p, s, events, j, o) && BegunAt(p, s, events, i, o)
  {
    AtPrefix(p, s, events, j, o);
    AtPrefix(p, s, events, i, o);
  }

  lemma {:induction false} BegunAfterDropGrows(p: Setup, s: State, events: seq<Event>, o: ObjectRef)
    requires events != [] && BegunAfterDrop(p, s, events[..|events| - 1], o)
    ensures BegunAfterDrop(p, s, events, o)
  {
    var front := events[..|events| - 1];
    var j: nat, i: nat :| j < i && DroppedAt(p, s, front, j, o) && BegunAt(p, s, front, i, o);
    PairInPrefix(p, s, events, j, i, o);
  }

  lemma {:induction false} BegunAfterDropBefore(p: Setup, s: State, events: seq<Event>, o: ObjectRef)
    requires events != [] && BegunAfterDrop(p, s, events, o) && !BegunAt(p, s, events, |events| - 1, o)
    ensures BegunAfterDrop(p, s, events[..|events| - 1], o)
  {
    var j: nat, i: nat :| j < i && DroppedAt(p, s, events, j, o) && BegunAt(p, s, events, i, o);
    NotLast(p, s, events, i, o);
    PairInPrefix(p, s, events, j, i, o);
  }

  lemma {:induction false} NotLast(p: Setup, s: State, events: seq<Event>, i: nat, o: ObjectRef)
    requires events != [] && BegunAt(p, s, events, i, o) && !BegunAt(p, s, events, |events| - 1, o)
    ensures i < |events| - 1
  {
  }

  lemma {:induction false} LastBeginsAfterDrop(p: Setup, s: State, events: seq<Event>, o: ObjectRef)
    requires Faithful(p.clock) && Fresh(s) && events != [] && Possible(p, s, events)
    requires BegunAt(p, s, events, |events| - 1, o)
    ensures BegunAfterDrop(p, s, events, o) <==> Count(Run(p, s, events[..|events| - 1]).started, o) > 0
  {
    LastBeginsAgain(p, s, events, o);
    if BegunAfterDrop(p, s, events, o) {
      var j: nat, i: nat :| j < i && DroppedAt(p, s, events, j, o) && BegunAt(p, s, events, i, o);
      assert j < |events| - 1;
    }
  }

  /**
   In every run, a file is processed more than once if and only if a run was given up while the file was
   in processing or processed and not stored, and a later slice contained it again.
   */
  lemma {:induction false} ProcessedTwiceIff(p: Setup, s: State, events: seq<Event>, o: ObjectRef)
    requires Faithful(p.clock) && Fresh(s) && Possible(p, s, events)
    ensures Count(Run(p, s, events).started, o) >= 2 <==> BegunAfterDrop(p, s, events, o)
  {
    if events != [] {
      var n := |events| - 1;
      PossiblePrefix(p, s, events);
      ProcessingIsConserved(p, s, events[..n]);
      ProcessedTwiceIff(p, s, events[..n], o);
      StepCounts(p, Run(p, s, events[..n]), events[n], o);
      if BegunAt(p, s, events, n, o) {
        LastBeginsAfterDrop(p, s, events, o);
      } else if BegunAfterDrop(p, s, events, o) {
        BegunAfterDropBefore(p, s, events, o);
      } else if BegunAfterDrop(p, s, events[..n], o) {
        BegunAfterDropGrows(p, s, events, o);
      }
    }
  }

  lemma {:induction false} OutstandingBefore(p: Setup, s: State, e: Event, f: IngestedFile)
    requires f in Step(p, s, e).batch && !GivesUp(e)
    ensures f in s.batch
  {
  }

  /** What is outstanding was returned by the last poll, and no run was given up since. */
  lemma {:induction false} OutstandingWasPolled(p: Setup, s: State, events: seq<Event>, f: IngestedFile) returns (k: nat)
    requires s.batch == [] && f in Run(p, s, events).batch
    ensures k < |events| && events[k].Poll? && f in Step(p, Run(p, s, events[..k]), events[k]).batch
    ensures forall i | k < i < |events| :: !GivesUp(events[i])
  {
    var n := |events| - 1;
    if GivesUp(events[n]) {
      k := n;
    } else {
      OutstandingBefore(p, Run(p, s, events[..n]), events[n], f);
      k := OutstandingWasPolled(p, s, events[..n], f);
      assert events[..n][..k] == events[..k];
      forall i | k < i < |events| ensures !GivesUp(events[i]) {
        assert i < n ==> events[..n][i] == events[i];
      }
    }
  }

  // ----- how much is processed again

  /** The step gives up a run that has files in flight. */
  predicate GivesUpFiles(s: State, e: Event) {
    GivesUp(e) && InFlight(s) != []
  }

  /** How many times a run with files in flight was given up. */
  function TimesGivenUp(p: Setup, s: State, events: seq<Event>): nat {
    if events == [] then 0
    else
      var front := events[..|events| - 1];
      TimesGivenUp(p, s, front) + (if GivesUpFiles(Run(p, s, front), events[|events| - 1]) then 1 else 0)
  }

  /** One slice for each of these times. */
  function SlicesGivenUp(p: Setup, s: State, events: seq<Event>): nat {
    if events == [] then 0
    else
      var front := events[..|events| - 1];
      SlicesGivenUp(p, s, front) + (if GivesUpFiles(Run(p, s, front), events[|events| - 1]) then p.concurrency else 0)
  }

  lemma {:induction false} OneMore(c: nat, k: nat)
    ensures c * (k + 1) == c * k + c
  {
  }

  lemma {:induction false} SlicesAreCounted(p: Setup, s: State, events: seq<Event>)
    ensures SlicesGivenUp(p, s, events) == p.concurrency * TimesGivenUp(p, s, events)
  {
    if events != [] {
      var front := events[..|events| - 1];
      SlicesAreCounted(p, s, front);
      OneMore(p.concurrency, TimesGivenUp(p, s, front));
    }
  }

  lemma {:induction false} DropsASlice(p: Setup, s: State, e: Event)
    requires InOrder(p, s)
    ensures |Step(p, s, e).dropped| <= |s.dropped| + (if GivesUpFiles(s, e) then p.concurrency else 0)
  {
  }

  /** Giving up a run with files in flight costs at most one slice, and nothing else costs any, over every run. */
  lemma {:induction false} GivingUpCostsASlice(p: Setup, s: State, events: seq<Event>)
    requires Faithful(p.clock) && Fresh(s) && Possible(p, s, events)
    ensures |Run(p, s, events).dropped| <= SlicesGivenUp(p, s, events)
  {
    if events != [] {
      var n := |events| - 1;
      PossiblePrefix(p, s, events);
      GivingUpCostsASlice(p, s, events[..n]);
      OrderIsKept(p, s, events[..n]);
      DropsASlice(p, Run(p, s, events[..n]), events[n]);
    }
  }

  function Positions(files: seq<IngestedFile>): set<ObjectRef> {
    set f | f in files :: f.ref
  }

  lemma {:induction false} AscendingIsCounted(files: seq<IngestedFile>)
    requires Ascending(files)
    ensures |Positions(files)| == |files|
  {
    if files != [] {
      var front, last := files[..|files| - 1], files[|files| - 1];
      assert files == front + [last];
      AscendingIsCounted(front);
      AscendingCountsOnce(files, last.ref);
      CountIsPositive(front, last.ref);
      assert Positions(files) == Positions(front) + {last.ref};
    }
  }

  lemma {:induction false} SubsetIsSmaller(a: set<ObjectRef>, b: set<ObjectRef>)
    requires a <= b
    ensures |a| <= |b|
  {
    assert b == a + (b - a);
  }

  lemma {:induction false} AscendingConcat(a: seq<IngestedFile>, b: seq<IngestedFile>)
    requires Ascending(a) && Ascending(b)
    requires forall f | f in b && a != [] :: Before(a[|a| - 1].ref, f.ref)
    ensures Ascending(a + b)
  {
    if b != [] {
      var n := |b| - 1;
      AscendingConcat(a, b[..n]);
      assert a + b == (a + b[..n]) + [b[n]];
      assert b[n] in b;
      NextExtends(a + b[..n], b[n]);
    }
  }

  lemma {:induction false} StoredAndInFlightAscend(p: Setup, s: State)
    requires InOrder(p, s)
    ensures Ascending(s.stored + InFlight(s))
  {
    assert forall f | f in InFlight(s) :: f in s.batch;
    AscendingConcat(s.stored, InFlight(s));
  }

  lemma {:induction false} CountedIsPosition(files: seq<IngestedFile>, o: ObjectRef)
    ensures Count(files, o) > 0 <==> o in Positions(files)
  {
    CountIsPositive(files, o);
  }

  /**
   The repeated processings, those beyond the first of each file, number at most one slice for each time
   a run was given up with files in flight: none when no run ever was.
   */
  lemma {:induction false} RepeatsAreBounded(p: Setup, s: State, events: seq<Event>)
    requires Faithful(p.clock) && Fresh(s) && Possible(p, s, events)
    ensures var started := Run(p, s, events).started;
      |started| - |Positions(started)| <= p.concurrency * TimesGivenUp(p, s, events)
  {
    var t := Run(p, s, events);
    var kept := t.stored + InFlight(t);
    ProcessingIsConserved(p, s, events);
    GivingUpCostsASlice(p, s, events);
    SlicesAreCounted(p, s, events);
    StoredAndInFlightAscend(p, t);
    AscendingIsCounted(kept);
    forall o | o in Positions(kept) ensures o in Positions(t.started) {
      CountedIsPosition(kept, o);
      CountConcat(t.stored, InFlight(t), o);
      CountedIsPosition(t.started, o);
    }
    SubsetIsSmaller(Positions(kept), Positions(t.started));
  }

  /** What is stored was processed. */
  lemma {:induction false} StoredWasProcessed(p: Setup, s: State, events: seq<Event>, o: ObjectRef)
    requires Faithful(p.clock) && Fresh(s) && Possible(p, s, events)
    requires o in Positions(Run(p, s, events).stored)
    ensures o in Positions(Run(p, s, events).started)
  {
    var t := Run(p, s, events);
    ProcessingIsConserved(p, s, events);
    CountedIsPosition(t.stored, o);
    CountedIsPosition(t.started, o);
  }

  // ----- a run that repeats

  lemma {:induction false} Extend(p: Setup, s: State, events: seq<Event>, e: Event) returns (longer: seq<Event>)
    requires Possible(p, s, events) && Enabled(Run(p, s, events), e)
    ensures longer == events + [e] && Possible(p, s, longer) && Run(p, s, longer) == Step(p, Run(p, s, events), e)
  {
    longer := events + [e];
    SingleStep(p, Run(p, s, events), e);
    PossibleConcat(p, s, events, [e]);
    RunConcat(p, s, events, [e]);
  }

  function FirstSlice(p: Setup, files: seq<IngestedFile>): seq<IngestedFile> {
    files[..if p.concurrency < |files| then p.concurrency else |files|]
  }

  /** A run that dies after processing its first slice and before storing, and the run after it. */
  lemma {:induction false} SliceIsRepeated(p: Setup, s: State, poll: Event)
    requires Fresh(s) && poll.Poll? && Enabled(s, poll)
    requires NewFiles(p.clock, poll.listing, s.checkpoint, p.mimeOf, poll.bodies) != []
    ensures var s1 := Step(p, s, poll);
      var s2 := Step(p, s1, Begin);
      var s3 := Step(p, s2, Abandon);
      var s4 := Step(p, s3, poll);
      var files := NewFiles(p.clock, poll.listing, s.checkpoint, p.mimeOf, poll.bodies);
      && Enabled(s1, Begin) && Enabled(s3, poll) && Enabled(s4, Begin)
      && Step(p, s4, Begin).started == FirstSlice(p, files) + FirstSlice(p, files)
  {
    var files := NewFiles(p.clock, poll.listing, s.checkpoint, p.mimeOf, poll.bodies);
    assert [] + FirstSlice(p, files) == FirstSlice(p, files);
  }

  lemma {:induction false} FiveSteps(p: Setup, s: State, a: Event, b: Event, c: Event, d: Event, e: Event)
    requires Enabled(s, a)
    requires var s1 := Step(p, s, a);
      var s2 := Step(p, s1, b);
      var s3 := Step(p, s2, c);
      Enabled(s1, b) && Enabled(s2, c) && Enabled(s3, d) && Enabled(Step(p, s3, d), e)
    ensures Possible(p, s, [a, b, c, d, e])
    ensures Run(p, s, [a, b, c, d, e]) == Step(p, Step(p, Step(p, Step(p, Step(p, s, a), b), c), d), e)
  {
    var s1 := Step(p, s, a);
    var s2 := Step(p, s1, b);
    var s3 := Step(p, s2, c);
    SingleStep(p, Step(p, s3, d), e);
    FirstStep(p, s3, d, [e]);
    FirstStep(p, s2, c, [d] + [e]);
    FirstStep(p, s1, b, [c] + ([d] + [e]));
    FirstStep(p, s, a, [b] + ([c] + ([d] + [e])));
    Literal(a, b, c, d, e);
  }

  lemma {:induction false} Literal(a: Event, b: Event, c: Event, d: Event, e: Event)
    ensures [a, b, c, d, e] == [a] + ([b] + ([c] + ([d] + [e])))
  {
  }

  /** The second run processes the whole slice again. */
  lemma {:induction false} DeadRunIsRepeated(p: Setup, s: State, listing: seq<ObjectRef>, bodies: map<string, string>)
    requires Fresh(s) && Lists(listing, s.bucket)
    requires NewFiles(p.clock, listing, s.checkpoint, p.mimeOf, bodies) != []
    ensures var poll, files := Poll(listing, bodies), NewFiles(p.clock, listing, s.checkpoint, p.mimeOf, bodies);
      && Possible(p, s, [poll, Begin, Abandon, poll, Begin])
      && Run(p, s, [poll, Begin, Abandon, poll, Begin]).started == FirstSlice(p, files) + FirstSlice(p, files)
  {
    SliceIsRepeated(p, s, Poll(listing, bodies));
    FiveSteps(p, s, Poll(listing, bodies), Begin, Abandon, Poll(listing, bodies), Begin);
  }
}
