/**
 What chunking does to the text as a whole (DocumentProcessingEngine.ts): nothing visible is lost, and on the
 texts the engine hands over, which are trimmed and not empty, line chunks are small and as few as possible.
 */
module ChunkText {
  import opened Chunker
  import opened VisibleText
  import opened Wrappers
  import Text

  // ----- visible characters

  lemma {:induction false} BreaksKeepInk(text: string, n: nat)
    requires n <= |text|
    ensures AllInk(PageBreaks(text, n)) == Ink(text[..n])
  {
    if n == 0 {
      assert AllInk([""][..0]) == "" && [""][..0] == [];
    } else {
      var parts, c := PageBreaks(text, n - 1), text[n - 1];
      BreaksKeepInk(text, n - 1);
      assert text[..n] == text[..n - 1] + [c];
      InkAppend(text[..n - 1], [c]);
      if IsBreak(text, n - 1) {
        BlankHasNoInk([c]);
        AllInkSnoc(parts, "");
      } else {
        LastGrows(parts, [c]);
      }
    }
  }

  lemma {:induction false} LastGrows(parts: seq<string>, more: string)
    requires parts != []
    ensures var last := |parts| - 1;
      AllInk(parts[last := parts[last] + more]) == AllInk(parts) + Ink(more)
  {
    var last := |parts| - 1;
    assert parts[last := parts[last] + more] == parts[..last] + [parts[last] + more];
    AllInkSnoc(parts[..last], parts[last] + more);
    InkAppend(parts[last], more);
  }

  lemma {:induction false} NonBlankKeepsInk(pieces: seq<string>)
    ensures AllInk(NonBlank(pieces)) == AllInk(pieces)
  {
    if pieces != [] {
      var n := |pieces| - 1;
      NonBlankKeepsInk(pieces[..n]);
      Text.TrimResult(pieces[n]);
      if Text.Trim(pieces[n]) != "" {
        AllInkSnoc(NonBlank(pieces[..n]), pieces[n]);
      } else {
        assert NonBlank(pieces) == NonBlank(pieces[..n]);
        BlankHasNoInk(pieces[n]);
      }
    }
  }

  lemma {:induction false} PiecesKeepInk(text: string)
    ensures AllInk(Pieces(text)) == Ink(text)
  {
    if |Pages(text)| > 1 {
      BreaksKeepInk(text, |text|);
      NonBlankKeepsInk(PageBreaks(text, |text|));
      assert text[..|text|] == text;
    } else {
      Text.SplitParts(text, '\n');
      JoinKeepsInk(Text.Split(text, '\n'), "\n");
    }
  }

  function PackedInk(p: Packing): string {
    AllInk(p.chunks) + Ink(p.current)
  }

  lemma {:induction false} JointInk(a: string, joint: string, b: string)
    requires Text.Blank(joint)
    ensures Ink(a + joint + b) == Ink(a) + Ink(b)
  {
    InkAppend(a + joint, b);
    InkAppend(a, joint);
    BlankHasNoInk(joint);
  }

  lemma {:induction false} FlushKeepsInk(p: Packing, piece: string)
    ensures PackedInk(Packing(p.chunks + [p.current], piece)) == PackedInk(p) + Ink(piece)
  {
    AllInkSnoc(p.chunks, p.current);
  }

  lemma {:induction false} AppendKeepsInk(p: Packing, joint: string, piece: string)
    requires Text.Blank(joint)
    ensures PackedInk(Packing(p.chunks, p.current + joint + piece)) == PackedInk(p) + Ink(piece)
  {
    JointInk(p.current, joint, piece);
  }

  lemma {:induction false} AddKeepsInk(p: Packing, piece: string, room: int)
    ensures PackedInk(Add(p, piece, room)) == PackedInk(p) + Ink(piece)
  {
    if |p.current| + |piece| > room && |p.current| > 0 {
      FlushKeepsInk(p, piece);
    } else {
      AppendKeepsInk(p, if p.current == "" then "" else "\n", piece);
    }
  }

  lemma {:induction false} PackKeepsInk(pieces: seq<string>, room: int)
    ensures PackedInk(Pack(pieces, room)) == AllInk(pieces)
  {
    if pieces != [] {
      var n := |pieces| - 1;
      PackKeepsInk(pieces[..n], room);
      AddKeepsInk(Pack(pieces[..n], room), pieces[n], room);
    }
  }

  lemma {:induction false} FinishKeepsInk(p: Packing, text: string)
    requires PackedInk(p) == Ink(text)
    ensures AllInk(Finish(p, text)) == Ink(text)
  {
    Text.TrimResult(p.current);
    if Text.Trim(p.current) != "" {
      AllInkSnoc(p.chunks, p.current);
    } else {
      BlankHasNoInk(p.current);
      AllInkSnoc([], text);
      assert [] + [text] == [text];
    }
  }

  /** In both modes the visible characters of all chunks, in order, are those of the text. */
  lemma {:induction false} ChunksKeepTheInk(text: string, maxChunkChars: int)
    ensures AllInk(Chunks(text, maxChunkChars)) == Ink(text)
  {
    var room := Room(text, maxChunkChars);
    PiecesKeepInk(text);
    PackKeepsInk(Pieces(text), room);
    FinishKeepsInk(Pack(Pieces(text), room), text);
  }

  // ----- the texts that arrive

  /** On every trimmed text that is not empty, a line chunk above the target is a single line. */
  lemma {:induction false} LineChunksAreSmall(text: string, maxChunkChars: int, chunk: string)
    requires Text.Trimmed(text) && text != "" && |Pages(text)| <= 1
    requires chunk in Chunks(text, maxChunkChars)
    ensures OneLineOrSmall(chunk, TargetSize(maxChunkChars))
  {
    LineChunksAreSmallUnlessBlank(text, maxChunkChars);
    assert !Text.IsSpace(text[0]);
  }

  // ----- as few chunks as possible

  /** What packing has done is no more, chunk by chunk and in the current chunk, than any split of the same pieces. */
  ghost predicate StaysAhead(p: Packing, other: Grouping) {
    && |p.chunks| < |other|
    && (|p.chunks| == |other| - 1 ==> |p.current| <= Length(other[|other| - 1]))
  }

  lemma {:induction false} AheadOfNewGroup(p: Packing, front: Grouping, piece: string, room: int)
    requires front == [] ==> p == Packing([], "")
    requires front != [] ==> StaysAhead(p, front)
    ensures StaysAhead(Add(p, piece, room), front + [[piece]])
  {
    assert Length([piece]) == |piece| by { LengthSnoc([], piece); assert [] + [piece] == [piece]; }
  }

  lemma {:induction false} AheadOfLongerGroup(p: Packing, front: Grouping, group: seq<string>, piece: string, room: int)
    requires StaysAhead(p, front + [group]) && Length(group + [piece]) <= room + 1
    ensures StaysAhead(Add(p, piece, room), front + [group + [piece]])
  {
    LengthSnoc(group, piece);
    LengthIsAtLeast(group);
  }

  /** Packing never has more chunks than another split of the same pieces under the limit. */
  lemma {:induction false} PackingStaysAhead(pieces: seq<string>, room: int, other: Grouping)
    requires IsSplit(other, pieces, room) && pieces != []
    ensures other != [] && StaysAhead(Pack(pieces, room), other)
    decreases |pieces|, 0
  {
    if other != [] {
      var n, m := |pieces| - 1, |other| - 1;
      var front, piece := pieces[..n], pieces[n];
      var shorter := other[m][..|other[m]| - 1];
      DropLastPiece(pieces, room, other);
      if shorter == [] {
        assert other == other[..m] + [[piece]] && other[..m] + [] == other[..m];
        PrefixStaysAhead(front, room, other[..m]);
        AheadOfNewGroup(Pack(front, room), other[..m], piece, room);
      } else {
        assert other == other[..m] + [shorter + [piece]];
        PrefixStaysAhead(front, room, other[..m] + [shorter]);
        AheadOfLongerGroup(Pack(front, room), other[..m], shorter, piece, room);
      }
    }
  }

  lemma {:induction false} PrefixStaysAhead(front: seq<string>, room: int, rest: Grouping)
    requires IsSplit(rest, front, room)
    ensures rest == [] ==> Pack(front, room) == Packing([], "")
    ensures rest != [] ==> StaysAhead(Pack(front, room), rest)
    decreases |front|, 1
  {
    if front == [] {
      NothingToSplit(room, rest);
    } else {
      PackingStaysAhead(front, room, rest);
    }
  }

  /** In line mode no order-preserving split of all lines under the target has fewer chunks. */
  lemma {:induction false} LineChunkingIsOptimal(text: string, maxChunkChars: int, other: Grouping)
    requires |Pages(text)| <= 1 && IsSplit(other, Text.Split(text, '\n'), TargetSize(maxChunkChars) - 1)
    ensures |Chunks(text, maxChunkChars)| <= |other|
  {
    PackingStaysAhead(Text.Split(text, '\n'), TargetSize(maxChunkChars) - 1, other);
  }

  // ----- the target, and the calls

  /** The target is three quarters of the maximum, rounded down. */
  lemma {:induction false} TargetIsThreeQuarters(maxChunkChars: int)
    ensures 4 * TargetSize(maxChunkChars) <= 3 * maxChunkChars < 4 * TargetSize(maxChunkChars) + 4
  {
  }

  /** The k-th answer is what the model makes of the k-th chunk, told its number. */
  lemma {:induction false} AnswersAreOfTheirChunks<T>(chunks: seq<string>, call: (string, nat) -> Result<T, string>, k: nat)
    requires k < |chunks|
    ensures |Outcomes(chunks, call)| == |chunks| && Outcomes(chunks, call)[k] == call(chunks[k], k)
    ensures call(chunks[k], k).Success? ==>
      Outputs(Outcomes(chunks, call)[..k]) + [call(chunks[k], k).value] <= Outputs(Outcomes(chunks, call))
    ensures call(chunks[k], k).Failure? ==>
      Issue(k + 1, |chunks|, call(chunks[k], k).error) in Issues(Outcomes(chunks, call), |chunks|)
  {
    EveryChunkIsAccountedFor(Outcomes(chunks, call), |chunks|);
    if call(chunks[k], k).Failure? {
      var issue := Issue(k + 1, |chunks|, call(chunks[k], k).error);
      var before := Issues(Outcomes(chunks, call)[..k], |chunks|);
      IssuesInChunkOrder(Outcomes(chunks, call), |chunks|, k);
      assert (before + [issue])[|before|] == issue;
    }
  }
}
