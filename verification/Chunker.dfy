/**
 Splitting of a long document text for the language model (DocumentProcessingEngine.ts): pages, or
 lines when there is only one page, are packed greedily into chunks of a target size.
 */
module Chunker {
  import opened Wrappers
  import Text

  const FORM_FEED := '\U{000C}'

  function TargetSize(maxChunkChars: int): int {
    3 * maxChunkChars / 4
  }

  // ----- pages

  /** A form feed, or a newline beside one. */
  predicate IsBreak(text: string, i: nat)
    requires i < |text|
  {
    || text[i] == FORM_FEED
    || (text[i] == '\n' && ((i + 1 < |text| && text[i + 1] == FORM_FEED) || (i > 0 && text[i - 1] == FORM_FEED)))
  }

  /** The pieces of the first `n` characters between breaks. */
  function PageBreaks(text: string, n: nat): (parts: seq<string>)
    requires n <= |text|
    ensures parts != []
  {
    if n == 0 then [""]
    else
      var parts := PageBreaks(text, n - 1);
      var last := |parts| - 1;
      if IsBreak(text, n - 1) then parts + [""] else parts[last := parts[last] + [text[n - 1]]]
  }

  function NonBlank(pieces: seq<string>): seq<string> {
    if pieces == [] then []
    else
      var n := |pieces| - 1;
      NonBlank(pieces[..n]) + (if Text.Trim(pieces[n]) != "" then [pieces[n]] else [])
  }

  function Pages(text: string): seq<string> {
    var parts := PageBreaks(text, |text|);
    if |parts| > 1 then NonBlank(parts) else [text]
  }

  // ----- greedy packing

  datatype Packing = Packing(chunks: seq<string>, current: string)

  /** `room` is what the current chunk and the next piece may have together. */
  function Add(p: Packing, piece: string, room: int): Packing {
    if |p.current| + |piece| > room && |p.current| > 0 then Packing(p.chunks + [p.current], piece)
    else Packing(p.chunks, p.current + (if p.current == "" then "" else "\n") + piece)
  }

  function Pack(pieces: seq<string>, room: int): Packing {
    if pieces == [] then Packing([], "")
    else Add(Pack(pieces[..|pieces| - 1], room), pieces[|pieces| - 1], room)
  }

  function Finish(p: Packing, text: string): seq<string> {
    var chunks := if Text.Trim(p.current) != "" then p.chunks + [p.current] else p.chunks;
    if chunks != [] then chunks else [text]
  }

  function Pieces(text: string): seq<string> {
    if |Pages(text)| > 1 then Pages(text) else Text.Split(text, '\n')
  }

  /** The newline that joins two lines counts towards the target, the one that joins two pages does not. */
  function Room(text: string, maxChunkChars: int): int {
    if |Pages(text)| > 1 then TargetSize(maxChunkChars) else TargetSize(maxChunkChars) - 1
  }

  function Chunks(text: string, maxChunkChars: int): seq<string> {
    Finish(Pack(Pieces(text), Room(text, maxChunkChars)), text)
  }

  method PackPieces(pieces: seq<string>, room: int, text: string) returns (chunks: seq<string>)
    ensures chunks == Finish(Pack(pieces, room), text)
  {
    chunks := [];
    var current := "";
    for i := 0 to |pieces|
      invariant Packing(chunks, current) == Pack(pieces[..i], room)
    {
      assert pieces[..i + 1][..i] == pieces[..i];
      var piece := pieces[i];
      if |current| + |piece| > room && |current| > 0 {
        chunks := chunks + [current];
        current := piece;
      } else {
        current := current + (if current == "" then "" else "\n") + piece;
      }
    }
    assert pieces[..|pieces|] == pieces;
    if Text.Trim(current) != "" {
      chunks := chunks + [current];
    }
    if chunks == [] {
      chunks := [text];
    }
  }

  method SplitTextIntoChunks(text: string, maxChunkChars: int) returns (chunks: seq<string>)
    ensures chunks == Chunks(text, maxChunkChars)
  {
    var pages := Pages(text);
    if |pages| > 1 {
      chunks := PackPieces(pages, TargetSize(maxChunkChars), text);
    } else {
      chunks := PackPieces(Text.Split(text, '\n'), TargetSize(maxChunkChars) - 1, text);
    }
  }

  // ----- packing as a grouping of the pieces

  type Grouping = seq<seq<string>>

  function Flatten(groups: Grouping): seq<string> {
    if groups == [] then [] else Flatten(groups[..|groups| - 1]) + groups[|groups| - 1]
  }

  function Joined(groups: Grouping): seq<string> {
    seq(|groups|, i requires 0 <= i < |groups| => Text.Join(groups[i], "\n"))
  }

  /** The length of the pieces joined by one character. */
  function Length(group: seq<string>): int {
    if group == [] then -1 else Length(group[..|group| - 1]) + 1 + |group[|group| - 1]|
  }

  /** The groups that greedy packing makes of non-empty pieces. */
  function Greedy(pieces: seq<string>, room: int): (groups: Grouping)
    ensures forall g | 0 <= g < |groups| :: groups[g] != []
    ensures pieces != [] ==> groups != []
  {
    if pieces == [] then []
    else
      var before, piece := Greedy(pieces[..|pieces| - 1], room), pieces[|pieces| - 1];
      var last := |before| - 1;
      if before == [] || Length(before[last]) + |piece| > room then before + [[piece]]
      else before[last := before[last] + [piece]]
  }

  lemma {:induction false} LengthSnoc(group: seq<string>, piece: string)
    ensures Length(group + [piece]) == Length(group) + 1 + |piece|
  {
    assert (group + [piece])[..|group|] == group;
  }

  lemma {:induction false} JoinSnoc(group: seq<string>, piece: string)
    requires group != []
    ensures Text.Join(group + [piece], "\n") == Text.Join(group, "\n") + "\n" + piece
  {
    Text.JoinAppend(group, [piece], "\n");
  }

  lemma {:induction false} LengthIsJoinLength(group: seq<string>)
    requires group != []
    ensures |Text.Join(group, "\n")| == Length(group)
  {
    var n := |group| - 1;
    assert group == group[..n] + [group[n]];
    if n == 0 {
      assert group == [group[0]];
      assert Length(group[..0]) == -1;
    } else {
      LengthIsJoinLength(group[..n]);
      JoinSnoc(group[..n], group[n]);
    }
  }

  lemma {:induction false} FlattenSnoc(groups: Grouping, g: seq<string>)
    ensures Flatten(groups + [g]) == Flatten(groups) + g
  {
    assert (groups + [g])[..|groups|] == groups;
  }

  ghost predicate AllNonEmpty(pieces: seq<string>) {
    forall i | 0 <= i < |pieces| :: pieces[i] != ""
  }

  /** The chunks are the joined groups but the last, and the current chunk is the last. */
  ghost predicate PacksGroups(p: Packing, groups: Grouping) {
    && groups != [] && groups[|groups| - 1] != []
    && p.current == Text.Join(groups[|groups| - 1], "\n") != ""
    && p.chunks == Joined(groups[..|groups| - 1])
  }

  lemma {:induction false} FlushPacksGroups(p: Packing, groups: Grouping, piece: string)
    requires PacksGroups(p, groups) && piece != ""
    ensures PacksGroups(Packing(p.chunks + [p.current], piece), groups + [[piece]])
  {
    var last := |groups| - 1;
    assert (groups + [[piece]])[..last + 1] == groups;
    assert Joined(groups) == Joined(groups[..last]) + [Text.Join(groups[last], "\n")];
  }

  lemma {:induction false} ExtendPacksGroups(p: Packing, groups: Grouping, piece: string)
    requires PacksGroups(p, groups)
    ensures var last := |groups| - 1;
      PacksGroups(Packing(p.chunks, p.current + "\n" + piece), groups[last := groups[last] + [piece]])
  {
    var last := |groups| - 1;
    JoinSnoc(groups[last], piece);
    assert groups[last := groups[last] + [piece]][..last] == groups[..last];
  }

  /** Greedy packing is the grouping, joined. */
  lemma {:induction false} PackingIsGreedy(pieces: seq<string>, room: int)
    requires AllNonEmpty(pieces) && pieces != []
    ensures PacksGroups(Pack(pieces, room), Greedy(pieces, room))
  {
    var n := |pieces| - 1;
    var front, piece := pieces[..n], pieces[n];
    if front == [] {
      assert Pack(front, room) == Packing([], "") && Greedy(front, room) == [];
      assert Joined([[piece]][..0]) == [];
    } else {
      PackingIsGreedy(front, room);
      var before := Greedy(front, room);
      LengthIsJoinLength(before[|before| - 1]);
      FlushPacksGroups(Pack(front, room), before, piece);
      ExtendPacksGroups(Pack(front, room), before, piece);
    }
  }

  lemma {:induction false} FlattenExtendLast(groups: Grouping, piece: string)
    requires groups != []
    ensures var last := |groups| - 1;
      Flatten(groups[last := groups[last] + [piece]]) == Flatten(groups) + [piece]
  {
    var last := |groups| - 1;
    assert groups == groups[..last] + [groups[last]];
    FlattenSnoc(groups[..last], groups[last]);
    FlattenSnoc(groups[..last], groups[last] + [piece]);
    assert groups[last := groups[last] + [piece]] == groups[..last] + [groups[last] + [piece]];
  }

  lemma {:induction false} GreedyKeepsThePieces(pieces: seq<string>, room: int)
    ensures Flatten(Greedy(pieces, room)) == pieces
  {
    if pieces == [] {
    } else {
      var n := |pieces| - 1;
      var before := Greedy(pieces[..n], room);
      GreedyKeepsThePieces(pieces[..n], room);
      assert pieces == pieces[..n] + [pieces[n]];
      FlattenSnoc(before, [pieces[n]]);
      if before != [] {
        FlattenExtendLast(before, pieces[n]);
      }
    }
  }

  /** A single piece, or pieces that fit the limit when joined. */
  ghost predicate Feasible(group: seq<string>, room: int) {
    |group| == 1 || (|group| > 1 && Length(group) <= room + 1)
  }

  ghost predicate IsSplit(groups: Grouping, pieces: seq<string>, room: int) {
    Flatten(groups) == pieces && forall g | 0 <= g < |groups| :: Feasible(groups[g], room)
  }

  lemma {:induction false} GreedyIsFeasible(pieces: seq<string>, room: int)
    ensures forall g | 0 <= g < |Greedy(pieces, room)| :: Feasible(Greedy(pieces, room)[g], room)
  {
    if pieces == [] {
    } else {
      var n := |pieces| - 1;
      var before, piece := Greedy(pieces[..n], room), pieces[n];
      GreedyIsFeasible(pieces[..n], room);
      if before != [] {
        LengthSnoc(before[|before| - 1], piece);
      }
    }
  }

  lemma {:induction false} SuffixIsShorter(group: seq<string>, k: nat)
    requires k <= |group|
    ensures Length(group[k..]) <= Length(group)
  {
    if group == [] || k == |group| {
      LengthIsAtLeast(group);
    } else {
      var n := |group| - 1;
      SuffixIsShorter(group[..n], k);
      assert group[k..][..n - k] == group[..n][k..];
      assert group[k..] == group[..n][k..] + [group[n]];
    }
  }

  lemma {:induction false} LengthIsAtLeast(group: seq<string>)
    ensures Length(group) >= -1
  {
    if group != [] {
      LengthIsAtLeast(group[..|group| - 1]);
    }
  }

  /** What fits after a group fits after any non-empty suffix of it. */
  lemma {:induction false} SuffixHasRoom(group: seq<string>, suffix: seq<string>, piece: string, room: int)
    requires 0 < |suffix| <= |group| && suffix == group[|group| - |suffix|..]
    requires Feasible(group + [piece], room)
    ensures Length(suffix) + |piece| <= room
  {
    var k := |group| - |suffix|;
    assert (group + [piece])[k..] == suffix + [piece];
    SuffixIsShorter(group + [piece], k);
    LengthSnoc(suffix, piece);
  }

  /** `groups` is no longer than `other`, and ends no longer when it is as long. */
  predicate IsAhead(groups: Grouping, other: Grouping) {
    && |groups| <= |other|
    && (|groups| == |other| > 0 ==> |groups[|groups| - 1]| <= |other[|other| - 1]|)
  }

  function WithoutLast(other: Grouping): Grouping
    requires other != [] && other[|other| - 1] != []
  {
    var m := |other| - 1;
    var shorter := other[m][..|other[m]| - 1];
    other[..m] + (if shorter == [] then [] else [shorter])
  }

  lemma {:induction false} NothingToSplit(room: int, other: Grouping)
    requires IsSplit(other, [], room)
    ensures other == []
  {
  }

  /** What fits behind the end of a group that is as long fits behind greedy's last group. */
  lemma {:induction false} GreedyHasRoom(front: seq<string>, room: int, rest: Grouping, piece: string)
    requires IsSplit(rest, front, room) && rest != [] && IsAhead(Greedy(front, room), rest) && |Greedy(front, room)| == |rest|
    requires Feasible(rest[|rest| - 1] + [piece], room)
    ensures var before := Greedy(front, room); before != [] && Length(before[|before| - 1]) + |piece| <= room
  {
    var before := Greedy(front, room);
    LastGroupsAreSuffixes(front, before, rest, room);
    SuffixHasRoom(rest[|rest| - 1], before[|before| - 1], piece, room);
  }

  lemma {:induction false} AheadOfOneMore(pieces: seq<string>, room: int, other: Grouping)
    requires pieces != [] && IsSplit(other, pieces, room) && other != [] && other[|other| - 1] != []
    requires var front := pieces[..|pieces| - 1];
      IsSplit(WithoutLast(other), front, room) && IsAhead(Greedy(front, room), WithoutLast(other))
    ensures IsAhead(Greedy(pieces, room), other)
  {
    var front, piece, lastOther := pieces[..|pieces| - 1], pieces[|pieces| - 1], other[|other| - 1];
    var rest := WithoutLast(other);
    DropLastPiece(pieces, room, other);
    if |lastOther| > 1 && |Greedy(front, room)| == |rest| {
      assert rest[|rest| - 1] + [piece] == lastOther;
      GreedyHasRoom(front, room, rest, piece);
    }
  }

  /**
   Greedy stays ahead of any other split: it never has more groups, and with equally many its last
   group has no more pieces.
   */
  lemma {:induction false} GreedyStaysAhead(pieces: seq<string>, room: int, other: Grouping)
    requires IsSplit(other, pieces, room)
    ensures IsAhead(Greedy(pieces, room), other)
  {
    if pieces == [] {
      NothingToSplit(room, other);
    } else if other != [] {
      DropLastPiece(pieces, room, other);
      GreedyStaysAhead(pieces[..|pieces| - 1], room, WithoutLast(other));
      AheadOfOneMore(pieces, room, other);
    }
  }

  /** Taking the last piece out of a split leaves a split. */
  lemma {:induction false} DropLastPiece(pieces: seq<string>, room: int, other: Grouping)
    requires IsSplit(other, pieces, room) && other != [] && pieces != []
    ensures var lastOther := other[|other| - 1];
      var shorter := lastOther[..|lastOther| - 1];
      && lastOther == shorter + [pieces[|pieces| - 1]]
      && IsSplit(other[..|other| - 1] + (if shorter == [] then [] else [shorter]), pieces[..|pieces| - 1], room)
  {
    var n, m := |pieces| - 1, |other| - 1;
    var lastOther := other[m];
    assert Feasible(lastOther, room);
    var shorter := lastOther[..|lastOther| - 1];
    assert lastOther == shorter + [lastOther[|lastOther| - 1]];
    assert pieces == Flatten(other[..m]) + lastOther;
    assert pieces[..n] == Flatten(other[..m]) + shorter;
    if shorter != [] {
      FlattenSnoc(other[..m], shorter);
      LengthSnoc(shorter, lastOther[|lastOther| - 1]);
    } else {
      assert other[..m] + [] == other[..m];
    }
  }

  lemma {:induction false} LastGroupsAreSuffixes(pieces: seq<string>, a: Grouping, b: Grouping, room: int)
    requires a != [] && b != [] && a == Greedy(pieces, room) && Flatten(b) == pieces
    requires |a[|a| - 1]| <= |b[|b| - 1]|
    ensures var s, t := a[|a| - 1], b[|b| - 1]; s == t[|t| - |s|..]
  {
    GreedyKeepsThePieces(pieces, room);
    var s, t := a[|a| - 1], b[|b| - 1];
    assert pieces == Flatten(a[..|a| - 1]) + s == Flatten(b[..|b| - 1]) + t;
    assert s == pieces[|pieces| - |s|..] && t == pieces[|pieces| - |t|..];
    assert t[|t| - |s|..] == pieces[|pieces| - |s|..];
  }

  // ----- page chunking: lossless, bounded, optimal

  lemma {:induction false} NonBlankPiecesAreNonEmpty(pieces: seq<string>)
    ensures forall i | 0 <= i < |NonBlank(pieces)| :: NonBlank(pieces)[i] != "" && !Text.Blank(NonBlank(pieces)[i])
  {
    if pieces != [] {
      NonBlankPiecesAreNonEmpty(pieces[..|pieces| - 1]);
      Text.TrimResult(pieces[|pieces| - 1]);
    }
  }

  lemma {:induction false} CurrentEndsInPiece(pieces: seq<string>, room: int)
    requires pieces != [] && !Text.Blank(pieces[|pieces| - 1])
    ensures !Text.Blank(Pack(pieces, room).current)
  {
    var piece, current := pieces[|pieces| - 1], Pack(pieces, room).current;
    assert current[|current| - |piece|..] == piece;
    var i :| 0 <= i < |piece| && !Text.IsSpace(piece[i]);
    assert current[|current| - |piece| + i] == piece[i];
  }

  lemma {:induction false} PackedPagesAreGreedyGroups(pages: seq<string>, room: int, text: string)
    requires pages != [] && forall i | 0 <= i < |pages| :: pages[i] != "" && !Text.Blank(pages[i])
    ensures Finish(Pack(pages, room), text) == Joined(Greedy(pages, room))
  {
    PackingIsGreedy(pages, room);
    CurrentEndsInPiece(pages, room);
    Text.TrimResult(Pack(pages, room).current);
    JoinedSnoc(Greedy(pages, room));
  }

  lemma {:induction false} JoinedSnoc(groups: Grouping)
    requires groups != []
    ensures var last := |groups| - 1;
      Joined(groups) == Joined(groups[..last]) + [Text.Join(groups[last], "\n")]
  {
  }

  /**
   With more than one non-blank page, the chunks are the joined groups of consecutive pages, each page
   exactly once and in order; a chunk of several pages has at most the target size plus one; and no
   order-preserving split under that limit has fewer chunks.
   */
  lemma {:induction false} PageChunkingIsOptimal(text: string, maxChunkChars: int, other: Grouping)
    requires |Pages(text)| > 1
    ensures var groups := Greedy(Pages(text), TargetSize(maxChunkChars));
      && Chunks(text, maxChunkChars) == Joined(groups)
      && IsSplit(groups, Pages(text), TargetSize(maxChunkChars))
      && (IsSplit(other, Pages(text), TargetSize(maxChunkChars)) ==> |Chunks(text, maxChunkChars)| <= |other|)
  {
    var target, pages := TargetSize(maxChunkChars), Pages(text);
    NonBlankPiecesAreNonEmpty(PageBreaks(text, |text|));
    PackedPagesAreGreedyGroups(pages, target, text);
    GreedyKeepsThePieces(pages, target);
    GreedyIsFeasible(pages, target);
    if IsSplit(other, pages, target) {
      GreedyStaysAhead(pages, target, other);
    }
  }

  /** For a positive maximum the limit on several pages is within the maximum itself. */
  lemma {:induction false} PageLimitIsWithinMaximum(group: seq<string>, maxChunkChars: int)
    requires maxChunkChars > 0 && |group| > 1 && Feasible(group, TargetSize(maxChunkChars))
    ensures |Text.Join(group, "\n")| <= maxChunkChars
  {
    LengthIsJoinLength(group);
  }

  // ----- line chunking: content and size

  function ChunkLines(chunks: seq<string>): seq<string> {
    if chunks == [] then []
    else ChunkLines(chunks[..|chunks| - 1]) + NonBlank(Text.Split(chunks[|chunks| - 1], '\n'))
  }

  lemma {:induction false} NonBlankSnoc(pieces: seq<string>, piece: string)
    ensures NonBlank(pieces + [piece]) == NonBlank(pieces) + NonBlank([piece])
  {
    assert (pieces + [piece])[..|pieces|] == pieces;
    assert [piece][..0] == [];
    assert NonBlank([]) + NonBlank([piece]) == NonBlank([piece]);
  }

  lemma {:induction false} ChunkLinesSnoc(chunks: seq<string>, chunk: string)
    ensures ChunkLines(chunks + [chunk]) == ChunkLines(chunks) + NonBlank(Text.Split(chunk, '\n'))
  {
    assert (chunks + [chunk])[..|chunks|] == chunks;
  }

  lemma {:induction false} SplitLine(line: string)
    requires '\n' !in line
    ensures Text.Split(line, '\n') == [line]
  {
    Text.SplitPrefix(line, '\n', "");
    assert line + "" == line;
  }

  lemma {:induction false} SplitAppendedLine(text: string, line: string)
    requires '\n' !in line
    ensures Text.Split(text + "\n" + line, '\n') == Text.Split(text, '\n') + [line]
  {
    Text.SplitParts(text, '\n');
    var parts := Text.Split(text, '\n') + [line];
    Text.JoinAppend(Text.Split(text, '\n'), [line], "\n");
    Text.SplitJoin(parts, '\n');
  }

  lemma {:induction false} NothingHasNoLines()
    ensures NonBlank(Text.Split("", '\n')) == []
  {
    Text.TrimResult("");
    var parts := Text.Split("", '\n');
    assert parts == [""] && parts[..0] == [];
  }

  function LinesSoFar(p: Packing): seq<string> {
    ChunkLines(p.chunks) + NonBlank(Text.Split(p.current, '\n'))
  }

  lemma {:induction false} FlushKeepsLines(chunks: seq<string>, current: string, line: string)
    requires '\n' !in line
    ensures LinesSoFar(Packing(chunks + [current], line)) == LinesSoFar(Packing(chunks, current)) + NonBlank([line])
  {
    SplitLine(line);
    ChunkLinesSnoc(chunks, current);
  }

  lemma {:induction false} JoinKeepsLines(chunks: seq<string>, current: string, line: string)
    requires '\n' !in line
    ensures LinesSoFar(Packing(chunks, current + "\n" + line)) == LinesSoFar(Packing(chunks, current)) + NonBlank([line])
  {
    SplitAppendedLine(current, line);
    NonBlankSnoc(Text.Split(current, '\n'), line);
  }

  lemma {:induction false} FirstLineKeepsLines(chunks: seq<string>, line: string)
    requires '\n' !in line
    ensures LinesSoFar(Packing(chunks, line)) == LinesSoFar(Packing(chunks, "")) + NonBlank([line])
  {
    SplitLine(line);
    NothingHasNoLines();
    assert ChunkLines(chunks) + [] == ChunkLines(chunks);
  }

  lemma {:induction false} AddKeepsLines(p: Packing, line: string, room: int, q: Packing)
    requires '\n' !in line && q == Add(p, line, room)
    ensures LinesSoFar(q) == LinesSoFar(p) + NonBlank([line])
  {
    if q.chunks != p.chunks {
      FlushKeepsLines(p.chunks, p.current, line);
    } else if p.current == "" {
      assert q.current == line;
      FirstLineKeepsLines(p.chunks, line);
    } else {
      assert q.current == p.current + "\n" + line;
      JoinKeepsLines(p.chunks, p.current, line);
    }
  }

  lemma {:induction false} PackSnoc(front: seq<string>, line: string, room: int)
    ensures Pack(front + [line], room) == Add(Pack(front, room), line, room)
  {
    assert (front + [line])[..|front|] == front;
  }

  lemma {:induction false} EmptyPackHasNoLines(room: int)
    ensures LinesSoFar(Pack([], room)) == []
  {
    NothingHasNoLines();
  }

  lemma {:induction false} PackKeepsLines(lines: seq<string>, room: int)
    requires forall i | 0 <= i < |lines| :: '\n' !in lines[i]
    ensures LinesSoFar(Pack(lines, room)) == NonBlank(lines)
  {
    if lines == [] {
      EmptyPackHasNoLines(room);
    } else {
      var front, line := lines[..|lines| - 1], lines[|lines| - 1];
      assert lines == front + [line];
      PackKeepsLines(front, room);
      PackSnoc(front, line, room);
      AddKeepsLines(Pack(front, room), line, room, Pack(lines, room));
      NonBlankSnoc(front, line);
    }
  }

  lemma {:induction false} BlankTextHasNoLines(text: string)
    requires Text.Blank(text)
    ensures NonBlank(Text.Split(text, '\n')) == []
  {
    Text.SplitParts(text, '\n');
    PartsOfBlank(Text.Split(text, '\n'), text);
  }

  lemma {:induction false} BlankConcat(a: string, b: string)
    ensures Text.Blank(a + b) <==> Text.Blank(a) && Text.Blank(b)
  {
    assert forall i | 0 <= i < |a| :: (a + b)[i] == a[i];
    assert forall i | 0 <= i < |b| :: (a + b)[|a| + i] == b[i];
  }

  lemma {:induction false} PartsOfBlank(parts: seq<string>, text: string)
    requires Text.Blank(text) && Text.Join(parts, "\n") == text
    ensures NonBlank(parts) == []
  {
    if parts != [] {
      var n := |parts| - 1;
      var last := parts[n];
      assert parts == parts[..n] + [last];
      Text.TrimResult(last);
      if n > 0 {
        var front := Text.Join(parts[..n], "\n");
        Text.JoinAppend(parts[..n], [last], "\n");
        BlankConcat(front + "\n", last);
        BlankConcat(front, "\n");
        PartsOfBlank(parts[..n], front);
      }
    }
  }

  /** Line chunks carry exactly the non-blank lines of the text, in order. */
  lemma {:induction false} LineChunkingKeepsContent(text: string, maxChunkChars: int)
    requires |Pages(text)| <= 1
    ensures ChunkLines(Chunks(text, maxChunkChars)) == NonBlank(Text.Split(text, '\n'))
  {
    var lines := Text.Split(text, '\n');
    var p := Pack(lines, Room(text, maxChunkChars));
    Text.SplitParts(text, '\n');
    PackKeepsLines(lines, Room(text, maxChunkChars));
    Text.TrimResult(p.current);
    if Text.Trim(p.current) != "" {
      ChunkLinesSnoc(p.chunks, p.current);
    } else {
      BlankTextHasNoLines(p.current);
      if p.chunks == [] {
        ChunkLinesSnoc([], text);
        assert [] + [text] == [text];
      }
    }
  }

  // The lines from the first non-empty one on, and what they join to.

  function DropEmpty(lines: seq<string>): seq<string> {
    if lines != [] && lines[0] == "" then DropEmpty(lines[1..]) else lines
  }

  lemma {:induction false} DropEmptySnoc(lines: seq<string>, line: string)
    ensures DropEmpty(lines + [line]) ==
      if DropEmpty(lines) == [] then (if line == "" then [] else [line]) else DropEmpty(lines) + [line]
    ensures DropEmpty(lines) != [] ==> DropEmpty(lines)[0] != ""
  {
    if lines == [] {
      assert lines + [line] == [line];
    } else {
      assert (lines + [line])[1..] == lines[1..] + [line];
      DropEmptySnoc(lines[1..], line);
    }
  }

  lemma {:induction false} JoinIsNonEmpty(lines: seq<string>)
    requires lines != [] && lines[0] != ""
    ensures Text.Join(lines, "\n") != ""
  {
  }

  ghost predicate NeverFlushed(lines: seq<string>, room: int) {
    var rest := DropEmpty(lines);
    |rest| <= 1 || |Text.Join(rest, "\n")| <= room + 1
  }

  /** Packing makes no finished chunk exactly when the lines after the leading empty ones fit together. */
  lemma {:induction false} NoChunkIffNeverFlushed(lines: seq<string>, room: int)
    ensures var p := Pack(lines, room);
      && (p.chunks == [] <==> NeverFlushed(lines, room))
      && (p.chunks == [] ==> p.current == Text.Join(DropEmpty(lines), "\n"))
  {
    if lines == [] {
    } else {
      var n := |lines| - 1;
      var front, line := lines[..n], lines[n];
      assert lines == front + [line];
      NoChunkIffNeverFlushed(front, room);
      DropEmptySnoc(front, line);
      var rest := DropEmpty(front);
      if rest != [] {
        JoinIsNonEmpty(rest);
        JoinSnoc(rest, line);
      }
    }
  }

  lemma {:induction false} JoinBehindEmpty(lines: seq<string>)
    requires |lines| > 1 && lines[0] == ""
    ensures Text.Blank(Text.Join(lines, "\n")) <==> Text.Blank(Text.Join(lines[1..], "\n"))
  {
    var rest := Text.Join(lines[1..], "\n");
    assert Text.Join(lines, "\n") == "\n" + rest;
    BlankConcat("\n", rest);
  }

  lemma {:induction false} DroppedLinesAreEmpty(lines: seq<string>)
    requires lines != []
    ensures Text.Blank(Text.Join(lines, "\n")) <==> Text.Blank(Text.Join(DropEmpty(lines), "\n"))
  {
    if lines[0] == "" {
      if |lines| > 1 {
        JoinBehindEmpty(lines);
        DroppedLinesAreEmpty(lines[1..]);
      } else {
        assert DropEmpty(lines) == DropEmpty(lines[1..]) == [];
      }
    }
  }

  ghost predicate OneLineOrSmall(chunk: string, target: int) {
    '\n' !in chunk || |chunk| <= target
  }

  lemma {:induction false} PackedChunksAreSmall(lines: seq<string>, room: int)
    requires forall i | 0 <= i < |lines| :: '\n' !in lines[i]
    ensures var p := Pack(lines, room);
      OneLineOrSmall(p.current, room + 1) && forall c | c in p.chunks :: OneLineOrSmall(c, room + 1)
  {
    if lines != [] {
      PackedChunksAreSmall(lines[..|lines| - 1], room);
    }
  }

  lemma {:induction false} BlankTextIffBlankRest(text: string)
    ensures Text.Blank(text) <==> Text.Blank(Text.Join(DropEmpty(Text.Split(text, '\n')), "\n"))
  {
    Text.SplitParts(text, '\n');
    DroppedLinesAreEmpty(Text.Split(text, '\n'));
  }

  lemma {:induction false} FallsBackIffBlank(text: string, room: int)
    ensures var p := Pack(Text.Split(text, '\n'), room);
      (p.chunks == [] && Text.Trim(p.current) == "") <==> Text.Blank(text) && NeverFlushed(Text.Split(text, '\n'), room)
  {
    NoChunkIffNeverFlushed(Text.Split(text, '\n'), room);
    BlankTextIffBlankRest(text);
    Text.TrimResult(Pack(Text.Split(text, '\n'), room).current);
  }

  /**
   A line chunk longer than the target is a single line, except when the text is blank and nothing is
   ever flushed: then the whole text is the one chunk, however long. This is the exact condition.
   */
  lemma {:induction false} LineChunksAreSmallUnlessBlank(text: string, maxChunkChars: int)
    requires |Pages(text)| <= 1
    ensures var target := TargetSize(maxChunkChars);
      (exists c | c in Chunks(text, maxChunkChars) :: !OneLineOrSmall(c, target))
      <==> Text.Blank(text) && NeverFlushed(Text.Split(text, '\n'), target - 1) && !OneLineOrSmall(text, target)
  {
    var room, lines := TargetSize(maxChunkChars) - 1, Text.Split(text, '\n');
    Text.SplitParts(text, '\n');
    PackedChunksAreSmall(lines, room);
    FallsBackIffBlank(text, room);
    var p := Pack(lines, room);
    if p.chunks == [] && Text.Trim(p.current) == "" {
      assert Finish(p, text) == [text] && text in [text];
    }
  }

  /** On a blank text the function alone does not keep the size: a run of newlines longer than the target. */
  lemma {:induction false} NewlinesAreOneLongChunk(text: string, maxChunkChars: int)
    requires 0 <= TargetSize(maxChunkChars) < |text| && forall i | 0 <= i < |text| :: text[i] == '\n'
    ensures Chunks(text, maxChunkChars) == [text] && !OneLineOrSmall(text, TargetSize(maxChunkChars))
  {
    OnlyNewlinesOnePage(text, |text|);
    NewlinesSplitToNothing(text);
    NoChunkIffNeverFlushed(Text.Split(text, '\n'), TargetSize(maxChunkChars) - 1);
    Text.TrimResult("");
    assert text[0] == '\n';
  }

  lemma {:induction false} OnlyNewlinesOnePage(text: string, n: nat)
    requires n <= |text| && forall i | 0 <= i < |text| :: text[i] == '\n'
    ensures |PageBreaks(text, n)| == 1
  {
    if n > 0 {
      OnlyNewlinesOnePage(text, n - 1);
    }
  }

  lemma {:induction false} NewlinesSplitToNothing(text: string)
    requires forall i | 0 <= i < |text| :: text[i] == '\n'
    ensures DropEmpty(Text.Split(text, '\n')) == []
  {
    if text == [] {
      assert [""][1..] == [];
    } else {
      NewlinesSplitToNothing(text[1..]);
      var rest := Text.Split(text[1..], '\n');
      assert ([""] + rest)[1..] == rest;
    }
  }

  // ----- running the chunks

  datatype Issue = Issue(chunk: nat, total: nat, message: string)

  /** What the model call and the parser made of each chunk. */
  function Outcomes<T>(chunks: seq<string>, call: (string, nat) -> Result<T, string>): seq<Result<T, string>> {
    seq(|chunks|, i requires 0 <= i < |chunks| => call(chunks[i], i))
  }

  function Outputs<T>(outcomes: seq<Result<T, string>>): seq<T> {
    if outcomes == [] then []
    else
      var n := |outcomes| - 1;
      Outputs(outcomes[..n]) + (if outcomes[n].Success? then [outcomes[n].value] else [])
  }

  function Issues<T>(outcomes: seq<Result<T, string>>, total: nat): seq<Issue> {
    if outcomes == [] then []
    else
      var n := |outcomes| - 1;
      Issues(outcomes[..n], total) + (if outcomes[n].Failure? then [Issue(n + 1, total, outcomes[n].error)] else [])
  }

  /** An answered chunk's output comes behind exactly the outputs of the chunks before it. */
  lemma {:induction false} OutputsInChunkOrder<T>(outcomes: seq<Result<T, string>>, k: nat)
    requires k < |outcomes| && outcomes[k].Success?
    ensures var before := Outputs(outcomes[..k]);
      before + [outcomes[k].value] <= Outputs(outcomes)
  {
    var n := |outcomes| - 1;
    if k < n {
      OutputsInChunkOrder(outcomes[..n], k);
      assert outcomes[..n][..k] == outcomes[..k];
    }
  }

  /** A failing chunk's issue comes behind exactly the issues of the chunks before it. */
  lemma {:induction false} IssuesInChunkOrder<T>(outcomes: seq<Result<T, string>>, total: nat, k: nat)
    requires k < |outcomes| && outcomes[k].Failure?
    ensures Issues(outcomes[..k], total) + [Issue(k + 1, total, outcomes[k].error)] <= Issues(outcomes, total)
  {
    var n := |outcomes| - 1;
    if k < n {
      IssuesInChunkOrder(outcomes[..n], total, k);
      assert outcomes[..n][..k] == outcomes[..k];
    }
  }

  lemma {:induction false} OutputsAndIssues<T>(outcomes: seq<Result<T, string>>, total: nat)
    ensures |Outputs(outcomes)| + |Issues(outcomes, total)| == |outcomes|
  {
    if outcomes != [] {
      OutputsAndIssues(outcomes[..|outcomes| - 1], total);
    }
  }

  /** Each chunk has its output or its issue, at its place in chunk order, and there is nothing else. */
  lemma {:induction false} EveryChunkIsAccountedFor<T>(outcomes: seq<Result<T, string>>, total: nat)
    ensures |Outputs(outcomes)| + |Issues(outcomes, total)| == |outcomes|
    ensures forall k | 0 <= k < |outcomes| :: (
      match outcomes[k]
      case Success(value) => Outputs(outcomes[..k]) + [value] <= Outputs(outcomes)
      case Failure(error) => Issues(outcomes[..k], total) + [Issue(k + 1, total, error)] <= Issues(outcomes, total))
  {
    OutputsAndIssues(outcomes, total);
    forall k | 0 <= k < |outcomes| && outcomes[k].Success? ensures Outputs(outcomes[..k]) + [outcomes[k].value] <= Outputs(outcomes) {
      OutputsInChunkOrder(outcomes, k);
    }
    forall k | 0 <= k < |outcomes| && outcomes[k].Failure?
      ensures Issues(outcomes[..k], total) + [Issue(k + 1, total, outcomes[k].error)] <= Issues(outcomes, total)
    {
      IssuesInChunkOrder(outcomes, total, k);
    }
  }

  method RunChunks<T>(chunks: seq<string>, call: (string, nat) -> Result<T, string>)
    returns (outputs: seq<T>, issues: seq<Issue>)
    ensures outputs == Outputs(Outcomes(chunks, call))
    ensures issues == Issues(Outcomes(chunks, call), |chunks|)
  {
    outputs, issues := [], [];
    ghost var outcomes := Outcomes(chunks, call);
    for i := 0 to |chunks|
      invariant outputs == Outputs(outcomes[..i])
      invariant issues == Issues(outcomes[..i], |chunks|)
    {
      assert outcomes[..i + 1][..i] == outcomes[..i];
      match call(chunks[i], i) {
        case Success(output) => outputs := outputs + [output];
        case Failure(message) => issues := issues + [Issue(i + 1, |chunks|, message)];
      }
    }
    assert outcomes[..|chunks|] == outcomes;
  }

  /** One failing chunk stops neither the loop nor the outputs after it. */
  method RunChunkedSlm<T>(text: string, maxChunkChars: int, call: (string, nat) -> Result<T, string>)
    returns (outputs: seq<T>, issues: seq<Issue>)
    ensures outputs == Outputs(Outcomes(Chunks(text, maxChunkChars), call))
    ensures issues == Issues(Outcomes(Chunks(text, maxChunkChars), call), |Chunks(text, maxChunkChars)|)
    ensures |outputs| + |issues| == |Chunks(text, maxChunkChars)|
  {
    var chunks := SplitTextIntoChunks(text, maxChunkChars);
    outputs, issues := RunChunks(chunks, call);
    OutputsAndIssues(Outcomes(chunks, call), |chunks|);
  }
}
