/** Object keys of the S3 file store (S3FileStore.ts): normalization, full keys and listing. */
module StorageKeys {
  import Sorting
  import Text

  function Slashes(value: string): string {
    seq(|value|, i requires 0 <= i < |value| => if value[i] == '\\' then '/' else value[i])
  }

  predicate Kept(segment: string) {
    |segment| > 0 && segment != "." && segment != ".."
  }

  function TrimAndKeep(parts: seq<string>): seq<string> {
    if parts == [] then []
    else (if Kept(Text.Trim(parts[0])) then [Text.Trim(parts[0])] else []) + TrimAndKeep(parts[1..])
  }

  function Segments(value: string): seq<string> {
    TrimAndKeep(Text.Split(Slashes(value), '/'))
  }

  function NormalizePrefix(value: string): string {
    Text.Join(Segments(value), "/")
  }

  /** The key under which the store keeps `key`; `prefix` is the normalized configured prefix. */
  function FullKey(prefix: string, key: string): string {
    if prefix != "" then prefix + "/" + NormalizePrefix(key) else NormalizePrefix(key)
  }

  /** What a listing reports for a stored key. */
  function Stripped(prefix: string, fullKey: string): string {
    if prefix == "" then fullKey
    else if |prefix| + 1 <= |fullKey| then fullKey[|prefix| + 1..] else ""
  }

  function ListPrefix(prefix: string, key: string): string {
    var fullPrefix := FullKey(prefix, key);
    if fullPrefix != "" && fullPrefix[|fullPrefix| - 1] == '/' then fullPrefix else fullPrefix + "/"
  }

  // ----- normal segments

  predicate Normal(segment: string) {
    Kept(segment) && Text.Trimmed(segment) && '/' !in segment && '\\' !in segment
  }

  ghost predicate AllNormal(segments: seq<string>) {
    forall i | 0 <= i < |segments| :: Normal(segments[i])
  }

  lemma {:induction false} KeptPartsAreNormal(parts: seq<string>)
    requires forall i | 0 <= i < |parts| :: '/' !in parts[i] && '\\' !in parts[i]
    ensures AllNormal(TrimAndKeep(parts))
  {
    if parts != [] {
      KeptPartsAreNormal(parts[1..]);
      Text.TrimResult(parts[0]);
      var t := Text.Trim(parts[0]);
      assert forall c | c in t :: c in parts[0];
    }
  }

  lemma {:induction false} NormalPartsAreKept(parts: seq<string>)
    requires AllNormal(parts)
    ensures TrimAndKeep(parts) == parts
  {
    if parts != [] {
      Text.TrimmedIsFixed(parts[0]);
      NormalPartsAreKept(parts[1..]);
    }
  }

  lemma {:induction false} CharsOfParts(parts: seq<string>, whole: string, c: char)
    requires Text.Join(parts, "/") == whole && c !in whole
    ensures forall i | 0 <= i < |parts| :: c !in parts[i]
  {
    if |parts| > 1 {
      var rest := Text.Join(parts[1..], "/");
      assert whole == parts[0] + "/" + rest;
      CharsOfParts(parts[1..], rest, c);
    }
  }

  /** Normalization yields only trimmed, non-empty segments other than "." and "..". */
  lemma {:induction false} SegmentsAreNormal(value: string)
    ensures AllNormal(Segments(value))
  {
    Text.SplitParts(Slashes(value), '/');
    CharsOfParts(Text.Split(Slashes(value), '/'), Slashes(value), '\\');
    KeptPartsAreNormal(Text.Split(Slashes(value), '/'));
  }

  lemma {:induction false} JoinHasNoBackslash(segments: seq<string>)
    requires AllNormal(segments)
    ensures '\\' !in Text.Join(segments, "/")
  {
    if segments != [] {
      JoinHasNoBackslash(segments[1..]);
    }
  }

  /** Normal segments are read back from their joined form. */
  lemma {:induction false} SegmentsOfJoin(segments: seq<string>)
    requires AllNormal(segments)
    ensures Segments(Text.Join(segments, "/")) == segments
  {
    var value := Text.Join(segments, "/");
    JoinHasNoBackslash(segments);
    assert Slashes(value) == value;
    if segments == [] {
      assert Text.Split("", '/') == [""] && [""][1..] == [];
      Text.TrimResult("");
    } else {
      Text.SplitJoin(segments, '/');
      NormalPartsAreKept(segments);
    }
  }

  lemma {:induction false} NormalizePrefixIsIdempotent(value: string)
    ensures NormalizePrefix(NormalizePrefix(value)) == NormalizePrefix(value)
  {
    SegmentsAreNormal(value);
    SegmentsOfJoin(Segments(value));
  }

  // ----- put, list, get

  /** The key listed for an object that `put` wrote resolves, on get and delete, to that same object. */
  lemma {:induction false} ListedKeyResolves(configured: string, key: string)
    ensures var prefix := NormalizePrefix(configured);
      FullKey(prefix, Stripped(prefix, FullKey(prefix, key))) == FullKey(prefix, key)
  {
    var prefix := NormalizePrefix(configured);
    NormalizePrefixIsIdempotent(key);
    assert Stripped(prefix, FullKey(prefix, key)) == NormalizePrefix(key);
  }

  /** A key is left alone by normalization exactly when it is empty or all its parts are normal. */
  lemma {:induction false} NormalizedIff(key: string)
    ensures NormalizePrefix(key) == key <==> key == "" || AllNormal(Text.Split(key, '/'))
  {
    if NormalizePrefix(key) == key {
      SegmentsAreNormal(key);
      SplitOfJoin(Segments(key));
    }
    if key == "" {
      SegmentsOfJoin([]);
    } else if AllNormal(Text.Split(key, '/')) {
      Text.SplitParts(key, '/');
      SegmentsOfJoin(Text.Split(key, '/'));
    }
  }

  lemma {:induction false} SplitOfJoin(segments: seq<string>)
    requires AllNormal(segments)
    ensures segments != [] ==> Text.Split(Text.Join(segments, "/"), '/') == segments
    ensures segments == [] ==> Text.Join(segments, "/") == ""
  {
    if segments != [] {
      Text.SplitJoin(segments, '/');
    }
  }

  /**
   For an object some other program wrote below the prefix, that holds exactly when the rest of its key is
   empty or all its parts are normal.
   */
  lemma {:induction false} ForeignKeyResolvesIff(configured: string, key: string)
    ensures var prefix := NormalizePrefix(configured);
      FullKey(prefix, Stripped(prefix, Head(prefix) + key)) == Head(prefix) + key
      <==> key == "" || AllNormal(Text.Split(key, '/'))
  {
    var prefix := NormalizePrefix(configured);
    StrippedHead(prefix, key);
    FullKeyHasHead(prefix, key);
    NormalizedIff(key);
    assert (Head(prefix) + NormalizePrefix(key))[|Head(prefix)|..] == NormalizePrefix(key);
    assert (Head(prefix) + key)[|Head(prefix)|..] == key;
  }

  lemma {:induction false} StrippedHead(prefix: string, key: string)
    ensures Stripped(prefix, Head(prefix) + key) == key
  {
    assert "" + key == key;
    assert (Head(prefix) + key)[|Head(prefix)|..] == key;
  }

  lemma {:induction false} UntidyPart(head: string, rest: string)
    requires '/' !in head && !Normal(Text.Split(rest, '/')[0])
    ensures !AllNormal(Text.Split(head + ("/" + rest), '/'))
  {
    Text.SplitPrefix(head, '/', "/" + rest);
    assert ("/" + rest)[1..] == rest;
    assert Text.Split("/" + rest, '/') == [""] + Text.Split(rest, '/');
    var parts := Text.Split(head + ("/" + rest), '/');
    assert parts[1] == Text.Split(rest, '/')[0];
  }

  /** A key with a doubled slash names another object when it comes back. */
  lemma {:induction false} DoubledSlashDoesNotResolve(configured: string)
    ensures var prefix := NormalizePrefix(configured);
      FullKey(prefix, Stripped(prefix, Head(prefix) + "a//b")) != Head(prefix) + "a//b"
  {
    ForeignKeyResolvesIff(configured, "a//b");
    assert Text.Split("/b", '/')[0] == "";
    UntidyPart("a", "/b");
    assert "a" + ("/" + "/b") == "a//b";
  }

  lemma {:induction false} SplitConcat(a: string, b: string, c: char)
    ensures Text.Split(a + [c] + b, c) == Text.Split(a, c) + Text.Split(b, c)
  {
    Text.SplitParts(a, c);
    Text.SplitParts(b, c);
    Text.JoinAppend(Text.Split(a, c), Text.Split(b, c), [c]);
    Text.SplitJoin(Text.Split(a, c) + Text.Split(b, c), c);
  }

  lemma {:induction false} PrefixOfJoin(p: seq<string>, k: seq<string>)
    requires AllNormal(p) && AllNormal(k) && p != []
    ensures Text.Join(p, "/") + "/" <= Text.Join(k, "/") <==> p < k
  {
    var head, whole := Text.Join(p, "/") + "/", Text.Join(k, "/");
    Text.SplitJoin(p, '/');
    if head <= whole {
      var rest := whole[|head|..];
      assert whole == Text.Join(p, "/") + "/" + rest;
      SplitConcat(Text.Join(p, "/"), rest, '/');
      assert k != [];
      Text.SplitJoin(k, '/');
      assert k == p + Text.Split(rest, '/');
    }
    if p < k {
      assert k == p + k[|p|..];
      Text.JoinAppend(p, k[|p|..], "/");
    }
  }

  lemma {:induction false} SharedHead(head: string, a: string, b: string)
    ensures head + a <= head + b <==> a <= b
  {
    assert (head + b)[|head|..] == b && (head + a)[|head|..] == a;
    if head + a <= head + b {
      assert a == (head + b)[..|head + a|][|head|..];
    }
  }

  lemma {:induction false} JoinEndsInSegment(segments: seq<string>)
    requires AllNormal(segments) && segments != []
    ensures var s := Text.Join(segments, "/"); s != "" && s[|s| - 1] != '/'
  {
    if |segments| > 1 {
      JoinEndsInSegment(segments[1..]);
    }
  }

  lemma {:induction false} JoinStartsInSegment(segments: seq<string>)
    requires AllNormal(segments)
    ensures var s := Text.Join(segments, "/"); s != "" ==> s[0] != '/'
  {
  }

  function Head(prefix: string): string {
    if prefix == "" then "" else prefix + "/"
  }

  lemma {:induction false} FullKeyHasHead(prefix: string, key: string)
    ensures FullKey(prefix, key) == Head(prefix) + NormalizePrefix(key)
  {
    assert "" + NormalizePrefix(key) == NormalizePrefix(key);
  }

  lemma {:induction false} FolderPrefix(prefix: string, folder: string)
    requires Segments(folder) != []
    ensures ListPrefix(prefix, folder) == Head(prefix) + (NormalizePrefix(folder) + "/")
  {
    SegmentsAreNormal(folder);
    JoinEndsInSegment(Segments(folder));
    FullKeyHasHead(prefix, folder);
    var p, full := NormalizePrefix(folder), FullKey(prefix, folder);
    assert full[|full| - 1] == p[|p| - 1];
    assert full + "/" == Head(prefix) + (p + "/");
  }

  lemma {:induction false} EmptyFolderPrefix(prefix: string, folder: string)
    requires Segments(folder) == []
    ensures ListPrefix(prefix, folder) == if prefix == "" then "/" else Head(prefix)
  {
    assert prefix + "/" + "" == prefix + "/";
    assert "" + "/" == "/";
  }

  /**
   Listing is by whole segments: the object stored for `key` is listed under `folder` exactly when the
   folder's segments are a proper initial part of the key's. An empty folder lists everything below a
   configured prefix, and nothing at all when no prefix is configured.
   */
  lemma {:induction false} ListingIsBySegments(configured: string, folder: string, key: string)
    ensures var prefix := NormalizePrefix(configured);
      ListPrefix(prefix, folder) <= FullKey(prefix, key) <==>
        if Segments(folder) != [] then Segments(folder) < Segments(key) else prefix != ""
  {
    var prefix := NormalizePrefix(configured);
    SegmentsAreNormal(key);
    FullKeyHasHead(prefix, key);
    if Segments(folder) != [] {
      SegmentsAreNormal(folder);
      FolderPrefix(prefix, folder);
      SharedHead(Head(prefix), NormalizePrefix(folder) + "/", NormalizePrefix(key));
      PrefixOfJoin(Segments(folder), Segments(key));
    } else {
      EmptyFolderPrefix(prefix, folder);
      JoinStartsInSegment(Segments(key));
    }
  }

  // ----- the paginated listing

  datatype Stored = Stored(key: string, lastModified: int)

  datatype Response = Response(contents: seq<Stored>, isTruncated: bool, nextToken: string)

  function Reported(prefix: string, contents: seq<Stored>): seq<Stored> {
    if contents == [] then []
    else
      var n := |contents| - 1;
      Reported(prefix, contents[..n])
      + (if contents[n].key != "" then [contents[n].(key := Stripped(prefix, contents[n].key))] else [])
  }

  predicate Continues(r: Response) {
    r.isTruncated && r.nextToken != ""
  }

  /** The contents of the responses up to and including the first that does not continue. */
  function Delivered(responses: seq<Response>): seq<Stored> {
    if responses == [] then []
    else responses[0].contents + (if Continues(responses[0]) then Delivered(responses[1..]) else [])
  }

  predicate HasKey(o: Stored) {
    o.key != ""
  }

  function StripAll(prefix: string, contents: seq<Stored>): seq<Stored> {
    seq(|contents|, i requires 0 <= i < |contents| => contents[i].(key := Stripped(prefix, contents[i].key)))
  }

  lemma {:induction false} StripAllSnoc(prefix: string, front: seq<Stored>, last: Stored)
    ensures StripAll(prefix, front + [last]) == StripAll(prefix, front) + [last.(key := Stripped(prefix, last.key))]
  {
  }

  /** A listing reports exactly the objects that have a key, in the order of the responses, each stripped. */
  lemma {:induction false} ReportedIsStripped(prefix: string, contents: seq<Stored>)
    ensures Reported(prefix, contents) == StripAll(prefix, Sorting.Filter(contents, HasKey))
  {
    if contents != [] {
      var n := |contents| - 1;
      var front, last := contents[..n], contents[n];
      ReportedIsStripped(prefix, front);
      assert contents == front + [last];
      Sorting.FilterAppend(front, [last], HasKey);
      assert [last][1..] == [];
      if HasKey(last) {
        assert Sorting.Filter([last], HasKey) == [last];
        StripAllSnoc(prefix, Sorting.Filter(front, HasKey), last);
      } else {
        assert Sorting.Filter([last], HasKey) == [];
      }
    }
  }

  /** Every object `put` wrote that a response contains is reported under a key that resolves to it. */
  lemma {:induction false} ReportedKeysResolve(configured: string, contents: seq<Stored>, key: string, lastModified: int)
    requires var prefix := NormalizePrefix(configured);
      FullKey(prefix, key) != "" && Stored(FullKey(prefix, key), lastModified) in contents
    ensures var prefix := NormalizePrefix(configured);
      exists r | r in Reported(prefix, contents) :: r.lastModified == lastModified && FullKey(prefix, r.key) == FullKey(prefix, key)
  {
    var prefix := NormalizePrefix(configured);
    var o := Stored(FullKey(prefix, key), lastModified);
    ReportedHolds(prefix, contents, o);
    ListedKeyResolves(configured, key);
    assert o.(key := Stripped(prefix, o.key)) in Reported(prefix, contents);
  }

  lemma {:induction false} ReportedHolds(prefix: string, contents: seq<Stored>, o: Stored)
    requires o in contents && o.key != ""
    ensures o.(key := Stripped(prefix, o.key)) in Reported(prefix, contents)
  {
    var n := |contents| - 1;
    if o != contents[n] {
      assert contents == contents[..n] + [contents[n]];
      ReportedHolds(prefix, contents[..n], o);
    }
  }

  lemma {:induction false} ReportedAppend(prefix: string, a: seq<Stored>, b: seq<Stored>)
    ensures Reported(prefix, a + b) == Reported(prefix, a) + Reported(prefix, b)
  {
    if b == [] {
      assert a + b == a;
    } else {
      var n := |b| - 1;
      assert (a + b)[..|a + b| - 1] == a + b[..n];
      ReportedAppend(prefix, a, b[..n]);
    }
  }

  lemma {:induction false} NextReported(prefix: string, contents: seq<Stored>, i: nat)
    requires i < |contents|
    ensures Reported(prefix, contents[..i + 1]) ==
      Reported(prefix, contents[..i]) + (if contents[i].key != "" then [contents[i].(key := Stripped(prefix, contents[i].key))] else [])
  {
    assert contents[..i + 1][..i] == contents[..i];
  }

  /** The objects of one response. */
  method ReportPage(prefix: string, contents: seq<Stored>) returns (results: seq<Stored>)
    ensures results == Reported(prefix, contents)
  {
    results := [];
    for i := 0 to |contents|
      invariant results == Reported(prefix, contents[..i])
    {
      NextReported(prefix, contents, i);
      if contents[i].key != "" {
        results := results + [contents[i].(key := Stripped(prefix, contents[i].key))];
      }
    }
    assert contents[..|contents|] == contents;
  }

  /** `done` is what the responses before `page` deliver. */
  ghost predicate DeliveredBefore(done: seq<Stored>, responses: seq<Response>, page: nat) {
    page <= |responses| && done + Delivered(responses[page..]) == Delivered(responses)
  }

  lemma {:induction false} NextDelivered(done: seq<Stored>, responses: seq<Response>, page: nat)
    requires page < |responses| && DeliveredBefore(done, responses, page)
    ensures Continues(responses[page]) ==> DeliveredBefore(done + responses[page].contents, responses, page + 1)
    ensures !Continues(responses[page]) ==> done + responses[page].contents == Delivered(responses)
  {
    var contents, rest := responses[page].contents, Delivered(responses[page + 1..]);
    assert responses[page..][1..] == responses[page + 1..];
    if Continues(responses[page]) {
      assert (done + contents) + rest == done + (contents + rest);
    } else {
      assert contents + [] == contents;
    }
  }

  lemma {:induction false} AllDelivered(done: seq<Stored>, responses: seq<Response>)
    requires DeliveredBefore(done, responses, |responses|)
    ensures done == Delivered(responses)
  {
    assert responses[|responses|..] == [] && done + [] == done;
  }

  /** `responses` are the store's answers, in order; the loop follows continuation tokens. */
  method ListObjects(prefix: string, responses: seq<Response>) returns (results: seq<Stored>)
    ensures results == Reported(prefix, Delivered(responses))
  {
    results := [];
    var page := 0;
    ghost var done: seq<Stored> := [];
    assert responses[0..] == responses && [] + Delivered(responses) == Delivered(responses);
    while page < |responses|
      invariant DeliveredBefore(done, responses, page)
      invariant results == Reported(prefix, done)
    {
      var pageResults := ReportPage(prefix, responses[page].contents);
      ReportedAppend(prefix, done, responses[page].contents);
      NextDelivered(done, responses, page);
      results := results + pageResults;
      done := done + responses[page].contents;
      if !Continues(responses[page]) {
        return;
      }
      page := page + 1;
    }
    AllDelivered(done, responses);
  }

  // ----- normalization, segment by segment

  /** A piece without slashes is trimmed, and dropped if nothing, a dot or two dots remain. */
  lemma {:induction false} SegmentsOfOne(piece: string)
    requires '/' !in piece && '\\' !in piece
    ensures Segments(piece) == if Text.Trim(piece) in {"", ".", ".."} then [] else [Text.Trim(piece)]
  {
    assert Slashes(piece) == piece;
    assert Text.Join([piece], "/") == piece;
    Text.SplitJoin([piece], '/');
    assert [piece][1..] == [];
    var kept := if Kept(Text.Trim(piece)) then [Text.Trim(piece)] else [];
    assert TrimAndKeep([piece]) == kept + TrimAndKeep([]) == kept;
  }

  function KeptPart(part: string): seq<string> {
    if Kept(Text.Trim(part)) then [Text.Trim(part)] else []
  }

  lemma {:induction false} TrimAndKeepFirst(parts: seq<string>)
    requires parts != []
    ensures TrimAndKeep(parts) == KeptPart(parts[0]) + TrimAndKeep(parts[1..])
  {
  }

  lemma {:induction false} TrimAndKeepAppend(a: seq<string>, b: seq<string>)
    ensures TrimAndKeep(a + b) == TrimAndKeep(a) + TrimAndKeep(b)
  {
    if a == [] {
      assert a + b == b;
    } else {
      var rest := a[1..];
      TrimAndKeepAppend(rest, b);
      TrimAndKeepFirst(a);
      TrimAndKeepFirst(a + b);
      assert (a + b)[1..] == rest + b && (a + b)[0] == a[0];
      Reassociate(KeptPart(a[0]), TrimAndKeep(rest), TrimAndKeep(b));
    }
  }

  lemma {:induction false} Reassociate(a: seq<string>, b: seq<string>, c: seq<string>)
    ensures (a + b) + c == a + (b + c)
  {
  }

  /** Slashes of either kind separate segments. */
  lemma {:induction false} SegmentsOfTwo(a: string, slash: char, b: string)
    requires slash in {'/', '\\'}
    ensures Segments(a + [slash] + b) == Segments(a) + Segments(b)
  {
    assert Slashes(a + [slash] + b) == Slashes(a) + ['/'] + Slashes(b);
    SplitConcat(Slashes(a), Slashes(b), '/');
    TrimAndKeepAppend(Text.Split(Slashes(a), '/'), Text.Split(Slashes(b), '/'));
  }

  lemma {:induction false} SegmentsOfThree(a: string, slash: char, piece: string, b: string)
    requires slash in {'/', '\\'}
    ensures Segments(a + [slash] + piece + [slash] + b) == Segments(a) + Segments(piece) + Segments(b)
  {
    SegmentsOfTwo(a + [slash] + piece, slash, b);
    SegmentsOfTwo(a, slash, piece);
  }

  lemma {:induction false} DotsAreNoSegment()
    ensures Segments("..") == []
  {
    Text.TrimmedIsFixed("..");
    SegmentsOfOne("..");
  }

  /** A key cannot climb out of its prefix: two dots between slashes vanish. */
  lemma {:induction false} DotsVanish(a: string, slash: char, dots: string, b: string)
    requires slash in {'/', '\\'} && dots == ".."
    ensures NormalizePrefix(a + [slash] + dots + [slash] + b) == NormalizePrefix(a + [slash] + b)
  {
    SegmentsOfThree(a, slash, dots, b);
    SegmentsOfTwo(a, slash, b);
    DotsAreNoSegment();
    assert Segments(a) + [] == Segments(a);
  }

  // ----- which responses are followed

  function AllContents(responses: seq<Response>): seq<Stored> {
    if responses == [] then [] else responses[0].contents + AllContents(responses[1..])
  }

  /** The listing has the contents of all responses up to the first that is not truncated or has no token. */
  lemma {:induction false} DeliveredUntilLast(responses: seq<Response>, n: nat)
    requires n < |responses| && forall i | 0 <= i < n :: responses[i].isTruncated && responses[i].nextToken != ""
    requires !responses[n].isTruncated || responses[n].nextToken == ""
    ensures Delivered(responses) == AllContents(responses[..n + 1])
  {
    assert responses[..n + 1][1..] == responses[1..][..n];
    if n > 0 {
      DeliveredUntilLast(responses[1..], n - 1);
    } else {
      assert AllContents(responses[1..][..0]) == [];
    }
  }
}
