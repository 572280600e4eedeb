/** What a poll returns, told by times and keys (S3UploadIngestionSource.ts). */
module PollTimes {
  import opened Wrappers
  import opened UploadPoller
  import opened PollingRuns

  /** `b` continues `a`, or has the larger character where they first differ. */
  ghost predicate DictionaryBefore(a: string, b: string) {
    a < b || exists i :: DiffersAt(a, b, i)
  }

  predicate DiffersAt(a: string, b: string, i: int) {
    0 <= i < |a| && i < |b| && a[..i] == b[..i] && a[i] < b[i]
  }

  lemma {:induction false} DiffersLater(a: string, b: string, i: nat)
    requires a != "" && b != "" && a[0] == b[0]
    ensures DiffersAt(a, b, i + 1) <==> DiffersAt(a[1..], b[1..], i)
  {
    if i + 1 < |a| && i + 1 < |b| {
      assert a[..i + 1] == [a[0]] + a[1..][..i] && b[..i + 1] == [b[0]] + b[1..][..i];
      assert a[..i + 1][1..] == a[1..][..i] && b[..i + 1][1..] == b[1..][..i];
    }
  }

  lemma {:induction false} ProperPrefixComesFirst(a: string, b: string)
    requires a < b
    ensures KeyLess(a, b)
  {
    if a != "" {
      assert a[0] == b[0] && a[1..] < b[1..];
      ProperPrefixComesFirst(a[1..], b[1..]);
    }
  }

  lemma {:induction false} SmallerCharacterComesFirst(a: string, b: string, i: nat)
    requires DiffersAt(a, b, i)
    ensures KeyLess(a, b)
  {
    if i > 0 {
      assert a[..i][0] == a[0] && b[..i][0] == b[0];
      DiffersLater(a, b, i - 1);
      SmallerCharacterComesFirst(a[1..], b[1..], i - 1);
    }
  }

  lemma {:induction false} KeyLessIsDictionary(a: string, b: string)
    requires KeyLess(a, b)
    ensures DictionaryBefore(a, b)
  {
    if a == "" {
      assert a < b;
    } else if a[0] < b[0] {
      assert DiffersAt(a, b, 0);
    } else {
      KeyLessIsDictionary(a[1..], b[1..]);
      if a[1..] < b[1..] {
        assert a == [a[0]] + a[1..] && b == [b[0]] + b[1..];
      } else {
        var i :| DiffersAt(a[1..], b[1..], i);
        DiffersLater(a, b, i);
        assert DiffersAt(a, b, i + 1);
      }
    }
  }

  /** Keys are compared as in a dictionary. */
  lemma {:induction false} KeyLessIff(a: string, b: string)
    ensures KeyLess(a, b) <==> DictionaryBefore(a, b)
  {
    if KeyLess(a, b) {
      KeyLessIsDictionary(a, b);
    }
    if a < b {
      ProperPrefixComesFirst(a, b);
    }
    if exists i :: DiffersAt(a, b, i) {
      var i :| DiffersAt(a, b, i);
      SmallerCharacterComesFirst(a, b, i);
    }
  }

  /** Modified after `last`, or at the same time under a later key. */
  ghost predicate Later(last: ObjectRef, o: ObjectRef) {
    o.ms > last.ms || (o.ms == last.ms && DictionaryBefore(last.key, o.key))
  }

  lemma {:induction false} LaterIsBefore(last: ObjectRef, o: ObjectRef)
    ensures Later(last, o) <==> Before(last, o)
  {
    KeyLessIff(last.key, o.key);
  }

  /** What is ingested for an object, field by field. */
  ghost predicate IsFileOf(f: IngestedFile, clock: Clock, mimeOf: string -> Option<string>, bodies: map<string, string>) {
    && mimeOf(f.ref.key) == Some(f.mime)
    && f.ref.key in bodies && f.body == bodies[f.ref.key]
    && f.checkpointValue == clock.toIso(f.ref.ms) + "|" + f.ref.key
  }

  lemma {:induction false} IngestedIffFile(clock: Clock, f: IngestedFile, mimeOf: string -> Option<string>, bodies: map<string, string>)
    ensures Ingest(clock, f.ref, mimeOf, bodies) == Some(f) <==> IsFileOf(f, clock, mimeOf, bodies)
  {
  }

  /** A first poll returns every listed object that is supported and readable. */
  lemma {:induction false} FirstPollReturns(clock: Clock, listing: seq<ObjectRef>, mimeOf: string -> Option<string>,
                                            bodies: map<string, string>, f: IngestedFile)
    requires DistinctRefs(listing)
    ensures f in NewFiles(clock, listing, None, mimeOf, bodies) <==> f.ref in listing && IsFileOf(f, clock, mimeOf, bodies)
  {
    PollIsExact(clock, listing, None, mimeOf, bodies);
    IngestedIffFile(clock, f, mimeOf, bodies);
  }

  /** A poll from the checkpoint of `last` returns exactly those modified later, or at that time under a later key. */
  lemma {:induction false} PollReturns(clock: Clock, listing: seq<ObjectRef>, last: ObjectRef, mimeOf: string -> Option<string>,
                                       bodies: map<string, string>, f: IngestedFile)
    requires Faithful(clock) && DistinctRefs(listing)
    ensures f in NewFiles(clock, listing, Some(EncodeCheckpoint(clock, last)), mimeOf, bodies) <==>
      f.ref in listing && Later(last, f.ref) && IsFileOf(f, clock, mimeOf, bodies)
  {
    CheckpointRoundTrips(clock, last);
    PollIsExact(clock, listing, Some(EncodeCheckpoint(clock, last)), mimeOf, bodies);
    IngestedIffFile(clock, f, mimeOf, bodies);
    LaterIsBefore(last, f.ref);
  }

  /** The files of a poll come oldest first, and those of one time in the order of their keys. */
  lemma {:induction false} PollIsOldestFirst(clock: Clock, listing: seq<ObjectRef>, checkpoint: Option<string>,
                                             mimeOf: string -> Option<string>, bodies: map<string, string>, i: nat, j: nat)
    requires DistinctRefs(listing) && i < j < |NewFiles(clock, listing, checkpoint, mimeOf, bodies)|
    ensures var files := NewFiles(clock, listing, checkpoint, mimeOf, bodies);
      Later(files[i].ref, files[j].ref)
  {
    var files := NewFiles(clock, listing, checkpoint, mimeOf, bodies);
    PollIsExact(clock, listing, checkpoint, mimeOf, bodies);
    LaterIsBefore(files[i].ref, files[j].ref);
  }

  /** Over every run, what is stored later was modified later, or at the same time under a later key. */
  lemma {:induction false} StoredTimesAscend(p: Setup, s: State, events: seq<Event>, i: nat, j: nat)
    requires Faithful(p.clock) && Fresh(s) && Possible(p, s, events) && i < j < |Run(p, s, events).stored|
    ensures Later(Run(p, s, events).stored[i].ref, Run(p, s, events).stored[j].ref)
  {
    CheckpointsAscend(p, s, events);
    LaterIsBefore(Run(p, s, events).stored[i].ref, Run(p, s, events).stored[j].ref);
  }

  /** An empty checkpoint, and one whose time does not parse, are like none. */
  lemma {:induction false} UnreadableCheckpointIsNone(clock: Clock, listing: seq<ObjectRef>, value: string, time: string, rest: string,
                                                      mimeOf: string -> Option<string>, bodies: map<string, string>)
    requires value == "" || (value == time + rest && '|' !in time && (rest == "" || rest[0] == '|') && clock.parseIso(time) == None)
    ensures NewFiles(clock, listing, Some(value), mimeOf, bodies) == NewFiles(clock, listing, None, mimeOf, bodies)
  {
    if value != "" {
      TimeOfCheckpoint(value, time, rest);
    }
  }

  lemma {:induction false} TimeOfCheckpoint(value: string, time: string, rest: string)
    requires value == time + rest && '|' !in time && (rest == "" || rest[0] == '|')
    ensures IndexOf(value, '|') == |time| && value[..IndexOf(value, '|')] == time
  {
    forall j | 0 <= j < |time| ensures value[j] != '|' {
      assert value[j] == time[j];
    }
    assert rest != "" ==> value[|time|] == '|';
    assert IndexOf(value, '|') == |time|;
  }

  /** A checkpoint that is a time alone stands before every key of that time. */
  lemma {:induction false} TimeAloneIsACheckpoint(clock: Clock, time: string, ms: int)
    requires time != "" && '|' !in time && clock.parseIso(time) == Some(ms)
    ensures ParseCheckpoint(clock, Some(time)) == At(ObjectRef("", ms))
  {
    assert time + "" == time;
    TimeOfCheckpoint(time, time, "");
  }
}
