/**
 One poll of the upload bucket (S3UploadIngestionSource.ts): list, keep what lies after the checkpoint,
 sort by (lastModified, key), read the supported objects.
 */
module UploadPoller {
  import opened Wrappers
  import Sorting

  datatype ObjectRef = ObjectRef(key: string, ms: int)

  datatype IngestedFile = IngestedFile(ref: ObjectRef, mime: string, body: string, checkpointValue: string)

  /** `Date.prototype.toISOString` and `Date.parse`. */
  datatype Clock = Clock(toIso: int -> string, parseIso: string -> Option<int>)

  ghost predicate Faithful(clock: Clock) {
    forall ms {:trigger clock.toIso(ms)} :: clock.parseIso(clock.toIso(ms)) == Some(ms) && '|' !in clock.toIso(ms)
  }

  // ----- the order on keys and positions

  /** String comparison by code units. */
  predicate KeyLess(a: string, b: string) {
    if b == "" then false
    else if a == "" then true
    else a[0] < b[0] || (a[0] == b[0] && KeyLess(a[1..], b[1..]))
  }

  predicate Before(a: ObjectRef, b: ObjectRef) {
    a.ms < b.ms || (a.ms == b.ms && KeyLess(a.key, b.key))
  }

  predicate AtOrBefore(a: ObjectRef, b: ObjectRef) {
    a == b || Before(a, b)
  }

  lemma {:induction false} KeyOrder(a: string, b: string, c: string)
    ensures !KeyLess(a, a)
    ensures a == b || KeyLess(a, b) || KeyLess(b, a)
    ensures KeyLess(a, b) && KeyLess(b, c) ==> KeyLess(a, c)
  {
    if a != "" && b != "" && c != "" {
      KeyOrder(a[1..], b[1..], c[1..]);
      assert a == [a[0]] + a[1..] && b == [b[0]] + b[1..];
    } else if a != "" {
      KeyOrder(a[1..], a[1..], a[1..]);
      if b != "" {
        KeyOrder(a[1..], b[1..], a[1..]);
        assert a == [a[0]] + a[1..] && b == [b[0]] + b[1..];
      }
    }
  }

  lemma {:induction false} PositionOrder(a: ObjectRef, b: ObjectRef, c: ObjectRef)
    ensures !Before(a, a)
    ensures a == b || Before(a, b) || Before(b, a)
    ensures Before(a, b) && Before(b, c) ==> Before(a, c)
  {
    KeyOrder(a.key, b.key, c.key);
    KeyOrder(b.key, a.key, a.key);
  }

  lemma {:induction false} PositionsAreTotallyOrdered()
    ensures Sorting.TotalPreorder(AtOrBefore)
  {
    forall a, b ensures AtOrBefore(a, b) || AtOrBefore(b, a) { PositionOrder(a, b, a); }
    forall a, b, c | AtOrBefore(a, b) && AtOrBefore(b, c) ensures AtOrBefore(a, c) { PositionOrder(a, b, c); }
  }

  // ----- checkpoints

  /** A parsed checkpoint: the beginning of time, or a position. */
  datatype Mark = Start | At(position: ObjectRef)

  function EncodeCheckpoint(clock: Clock, o: ObjectRef): string {
    clock.toIso(o.ms) + "|" + o.key
  }

  /** The first index of `c`, or the length of `s`. */
  function IndexOf(s: string, c: char): (i: nat)
    ensures i <= |s| && (i < |s| ==> s[i] == c)
    ensures forall j | 0 <= j < i :: s[j] != c
  {
    if s == "" || s[0] == c then 0 else 1 + IndexOf(s[1..], c)
  }

  function ParseCheckpoint(clock: Clock, value: Option<string>): Mark {
    if value.None? || value.value == "" then Start
    else
      var i := IndexOf(value.value, '|');
      var isoPart := value.value[..i];
      var keyPart := if i == |value.value| then "" else value.value[i + 1..];
      match clock.parseIso(isoPart)
      case None => Start
      case Some(ms) => At(ObjectRef(keyPart, ms))
  }

  /** The encoding round-trips, whatever the key contains. */
  lemma {:induction false} CheckpointRoundTrips(clock: Clock, o: ObjectRef)
    requires Faithful(clock)
    ensures ParseCheckpoint(clock, Some(EncodeCheckpoint(clock, o))) == At(o)
  {
    var iso, value := clock.toIso(o.ms), EncodeCheckpoint(clock, o);
    assert value[|iso|] == '|' && value[..|iso|] == iso && value[|iso| + 1..] == o.key;
    forall j | 0 <= j < |iso| ensures value[j] != '|' { assert value[j] == iso[j]; }
    assert IndexOf(value, '|') == |iso|;
  }

  predicate After(mark: Mark, o: ObjectRef) {
    mark.Start? || Before(mark.position, o)
  }

  // ----- one poll

  function FreshObjects(listing: seq<ObjectRef>, mark: Mark): seq<ObjectRef> {
    Sorting.StableSort(Sorting.Filter(listing, o => After(mark, o)), AtOrBefore)
  }

  /** What the poll produces for one object, given the MIME table and what reading the store returned. */
  function Ingest(clock: Clock, o: ObjectRef, mimeOf: string -> Option<string>, bodies: map<string, string>): Option<IngestedFile> {
    match mimeOf(o.key)
    case None => None
    case Some(mime) =>
      if o.key in bodies then Some(IngestedFile(o, mime, bodies[o.key], EncodeCheckpoint(clock, o))) else None
  }

  function IngestAll(clock: Clock, objects: seq<ObjectRef>, mimeOf: string -> Option<string>, bodies: map<string, string>)
    : seq<IngestedFile>
  {
    if objects == [] then []
    else
      var n := |objects| - 1;
      IngestAll(clock, objects[..n], mimeOf, bodies)
      + (match Ingest(clock, objects[n], mimeOf, bodies) case None => [] case Some(f) => [f])
  }

  function NewFiles(clock: Clock, listing: seq<ObjectRef>, checkpoint: Option<string>,
                    mimeOf: string -> Option<string>, bodies: map<string, string>): seq<IngestedFile>
  {
    IngestAll(clock, FreshObjects(listing, ParseCheckpoint(clock, checkpoint)), mimeOf, bodies)
  }

  /** `listing` is `None` when the store cannot list; `bodies` holds the objects that could be read. */
  method FetchNewFiles(clock: Clock, listing: Option<seq<ObjectRef>>, lastCheckpoint: Option<string>,
                       mimeOf: string -> Option<string>, bodies: map<string, string>) returns (files: seq<IngestedFile>)
    ensures files == if listing.None? then [] else NewFiles(clock, listing.value, lastCheckpoint, mimeOf, bodies)
  {
    if listing.None? {
      return [];
    }
    var sorted := FreshObjects(listing.value, ParseCheckpoint(clock, lastCheckpoint));
    files := [];
    for i := 0 to |sorted|
      invariant files == IngestAll(clock, sorted[..i], mimeOf, bodies)
    {
      assert sorted[..i + 1][..i] == sorted[..i];
      var ref := sorted[i];
      var mimeType := mimeOf(ref.key);
      if mimeType.None? {
        continue;
      }
      if ref.key !in bodies {
        continue;
      }
      files := files + [IngestedFile(ref, mimeType.value, bodies[ref.key], EncodeCheckpoint(clock, ref))];
    }
    assert sorted[..|sorted|] == sorted;
  }

  // ----- what a poll returns: the eligible objects, each once, in ascending order

  ghost predicate Ascending(files: seq<IngestedFile>) {
    forall i, j | 0 <= i < j < |files| :: Before(files[i].ref, files[j].ref)
  }

  ghost predicate DistinctRefs(listing: seq<ObjectRef>) {
    forall i, j | 0 <= i < j < |listing| :: listing[i] != listing[j]
  }

  lemma {:induction false} FilterMembers(s: seq<ObjectRef>, p: ObjectRef -> bool)
    ensures forall o :: o in Sorting.Filter(s, p) <==> o in s && p(o)
    ensures multiset(Sorting.Filter(s, p)) <= multiset(s)
  {
    if s != [] {
      FilterMembers(s[1..], p);
      assert s == [s[0]] + s[1..];
    }
  }

  lemma {:induction false} DistinctIsMultiset(s: seq<ObjectRef>)
    ensures DistinctRefs(s) <==> forall o :: multiset(s)[o] <= 1
  {
    if s != [] {
      var n := |s| - 1;
      var front := s[..n];
      assert s == front + [s[n]];
      DistinctIsMultiset(front);
      assert multiset(s) == multiset(front) + multiset{s[n]};
      if DistinctRefs(s) {
        assert DistinctRefs(front);
        assert s[n] !in front;
      } else if forall o :: multiset(s)[o] <= 1 {
        assert forall o :: multiset(front)[o] <= multiset(s)[o];
        assert multiset(front)[s[n]] == 0;
        assert s[n] !in front;
      }
    }
  }

  lemma {:induction false} FreshObjectsAreSorted(listing: seq<ObjectRef>, mark: Mark)
    requires DistinctRefs(listing)
    ensures var sorted := FreshObjects(listing, mark);
      && (forall i, j | 0 <= i < j < |sorted| :: Before(sorted[i], sorted[j]))
      && (forall o :: o in sorted <==> o in listing && After(mark, o))
  {
    var kept, sorted := Sorting.Filter(listing, o => After(mark, o)), FreshObjects(listing, mark);
    FilterMembers(listing, o => After(mark, o));
    DistinctIsMultiset(listing);
    forall o ensures multiset(kept)[o] <= 1 { assert multiset(kept)[o] <= multiset(listing)[o]; }
    PositionsAreTotallyOrdered();
    Sorting.StableSortSorts(kept, AtOrBefore);
    Sorting.StableSortPermutes(kept, AtOrBefore);
    DistinctIsMultiset(kept);
    DistinctIsMultiset(sorted);
    forall o ensures o in sorted <==> o in kept { Sorting.SameElements(sorted, kept, o); }
    forall i, j | 0 <= i < j < |sorted| ensures Before(sorted[i], sorted[j]) {
      assert AtOrBefore(sorted[i], sorted[j]) && sorted[i] != sorted[j];
    }
  }

  lemma {:induction false} IngestedMembers(clock: Clock, objects: seq<ObjectRef>, mimeOf: string -> Option<string>, bodies: map<string, string>)
    ensures forall f :: f in IngestAll(clock, objects, mimeOf, bodies) <==>
      f.ref in objects && Ingest(clock, f.ref, mimeOf, bodies) == Some(f)
  {
    if objects != [] {
      var n := |objects| - 1;
      IngestedMembers(clock, objects[..n], mimeOf, bodies);
      assert objects == objects[..n] + [objects[n]];
    }
  }

  lemma {:induction false} IngestedAscend(clock: Clock, objects: seq<ObjectRef>, mimeOf: string -> Option<string>, bodies: map<string, string>)
    requires forall i, j | 0 <= i < j < |objects| :: Before(objects[i], objects[j])
    ensures Ascending(IngestAll(clock, objects, mimeOf, bodies))
  {
    if objects != [] {
      var n := |objects| - 1;
      var before := IngestAll(clock, objects[..n], mimeOf, bodies);
      IngestedAscend(clock, objects[..n], mimeOf, bodies);
      IngestedMembers(clock, objects[..n], mimeOf, bodies);
      forall i | 0 <= i < |before| ensures Before(before[i].ref, objects[n]) {
        assert before[i] in before;
        var k :| 0 <= k < n && objects[..n][k] == before[i].ref;
        assert Before(objects[k], objects[n]);
      }
    }
  }

  /** A poll returns exactly the listed objects after the checkpoint that are supported and readable, ascending. */
  lemma {:induction false} PollIsExact(clock: Clock, listing: seq<ObjectRef>, checkpoint: Option<string>,
                                       mimeOf: string -> Option<string>, bodies: map<string, string>)
    requires DistinctRefs(listing)
    ensures var files := NewFiles(clock, listing, checkpoint, mimeOf, bodies);
      && Ascending(files)
      && (forall f :: f in files <==>
            f.ref in listing && After(ParseCheckpoint(clock, checkpoint), f.ref) && Ingest(clock, f.ref, mimeOf, bodies) == Some(f))
  {
    var mark := ParseCheckpoint(clock, checkpoint);
    FreshObjectsAreSorted(listing, mark);
    IngestedMembers(clock, FreshObjects(listing, mark), mimeOf, bodies);
    IngestedAscend(clock, FreshObjects(listing, mark), mimeOf, bodies);
  }

  /** In an ascending list, what comes after index `k - 1` is what lies beyond its position. */
  lemma {:induction false} TailIsBeyond(files: seq<IngestedFile>, k: nat, f: IngestedFile)
    requires Ascending(files) && 0 < k <= |files|
    ensures f in files[k..] <==> f in files && Before(files[k - 1].ref, f.ref)
  {
    if f in files {
      var i :| 0 <= i < |files| && files[i] == f;
      PositionOrder(files[k - 1].ref, f.ref, files[k - 1].ref);
      PositionOrder(f.ref, files[k - 1].ref, f.ref);
      if i >= k {
        assert files[k..][i - k] == f;
      }
    }
    if f in files[k..] {
      var i :| 0 <= i < |files[k..]| && files[k..][i] == f;
      assert files[k + i] == f;
    }
  }

  lemma {:induction false} SameMembersSameEmptiness(a: seq<IngestedFile>, b: seq<IngestedFile>)
    requires forall f :: f in a <==> f in b
    ensures a == [] <==> b == []
  {
    if a != [] { assert a[0] in a; }
    if b != [] { assert b[0] in b; }
  }

  lemma {:induction false} AscendingIsUnique(a: seq<IngestedFile>, b: seq<IngestedFile>)
    requires Ascending(a) && Ascending(b) && forall f :: f in a <==> f in b
    ensures a == b
  {
    SameMembersSameEmptiness(a, b);
    if a != [] {
      assert a[0] in a && b[0] in b;
      TailIsBeyond(a, 1, b[0]);
      TailIsBeyond(b, 1, a[0]);
      PositionOrder(a[0].ref, b[0].ref, a[0].ref);
      assert a == [a[0]] + a[1..] && b == [b[0]] + b[1..];
      assert a[0] == b[0];
      forall f ensures f in a[1..] <==> f in b[1..] {
        TailIsBeyond(a, 1, f);
        TailIsBeyond(b, 1, f);
      }
      AscendingIsUnique(a[1..], b[1..]);
    }
  }

  /**
   Resuming: a poll of the unchanged bucket from the checkpoint of the k-th file returns exactly the
   files after it, in whatever order the store lists the objects the second time.
   */
  lemma {:induction false} ResumeYieldsTheRest(clock: Clock, listing: seq<ObjectRef>, relisting: seq<ObjectRef>, checkpoint: Option<string>,
                                               mimeOf: string -> Option<string>, bodies: map<string, string>, k: nat)
    requires Faithful(clock) && DistinctRefs(listing) && DistinctRefs(relisting)
    requires forall o :: o in listing <==> o in relisting
    requires 0 < k <= |NewFiles(clock, listing, checkpoint, mimeOf, bodies)|
    ensures var files := NewFiles(clock, listing, checkpoint, mimeOf, bodies);
      NewFiles(clock, relisting, Some(files[k - 1].checkpointValue), mimeOf, bodies) == files[k..]
  {
    var files := NewFiles(clock, listing, checkpoint, mimeOf, bodies);
    var last := files[k - 1];
    var again := NewFiles(clock, relisting, Some(last.checkpointValue), mimeOf, bodies);
    PollIsExact(clock, listing, checkpoint, mimeOf, bodies);
    PollIsExact(clock, relisting, Some(last.checkpointValue), mimeOf, bodies);
    assert last in files;
    CheckpointRoundTrips(clock, last.ref);
    forall f ensures f in files[k..] <==> f in again {
      TailIsBeyond(files, k, f);
      if Before(last.ref, f.ref) {
        AfterMarkTransitively(ParseCheckpoint(clock, checkpoint), last.ref, f.ref);
      }
    }
    assert Ascending(files[k..]);
    AscendingIsUnique(again, files[k..]);
  }

  lemma {:induction false} AfterMarkTransitively(mark: Mark, a: ObjectRef, b: ObjectRef)
    requires After(mark, a) && Before(a, b)
    ensures After(mark, b)
  {
    if mark.At? {
      PositionOrder(mark.position, a, b);
    }
  }
}
