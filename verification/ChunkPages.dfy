/** How the text is taken apart into pages (DocumentProcessingEngine.ts): at form feeds, with a newline beside one. */
module ChunkPages {
  import opened Chunker
  import Text

  /** A form feed alone, or with a newline before it, behind it, or both. */
  predicate IsJoint(joint: string) {
    || (|joint| == 1 && joint[0] == '\U{000C}')
    || (|joint| == 2 && joint[0] == '\n' && joint[1] == '\U{000C}')
    || (|joint| == 2 && joint[0] == '\U{000C}' && joint[1] == '\n')
    || (|joint| == 3 && joint[0] == '\n' && joint[1] == '\U{000C}' && joint[2] == '\n')
  }

  /** A page with something visible on it, no form feed, and no newline at its ends. */
  ghost predicate IsPage(page: string) {
    && !Text.Blank(page)
    && (forall i | 0 <= i < |page| :: page[i] != '\U{000C}')
    && page != "" && page[0] != '\n' && page[|page| - 1] != '\n'
  }

  lemma {:induction false} UnbrokenRun(text: string, n: nat, m: nat)
    requires n <= m <= |text| && forall i | n <= i < m :: !IsBreak(text, i)
    ensures var parts := PageBreaks(text, n); var last := |parts| - 1;
      PageBreaks(text, m) == parts[last := parts[last] + text[n..m]]
  {
    var parts := PageBreaks(text, n);
    var last := |parts| - 1;
    if n == m {
      assert text[n..m] == "" && parts[last] + "" == parts[last];
      assert parts[last := parts[last]] == parts;
    } else {
      UnbrokenRun(text, n, m - 1);
      assert text[n..m] == text[n..m - 1] + [text[m - 1]];
      assert parts[last] + (text[n..m - 1] + [text[m - 1]]) == parts[last] + text[n..m - 1] + [text[m - 1]];
    }
  }

  lemma {:induction false} NonBlankSkips(parts: seq<string>, piece: string)
    ensures NonBlank(parts + [piece]) == NonBlank(parts) + (if Text.Trim(piece) != "" then [piece] else [])
  {
    assert (parts + [piece])[..|parts|] == parts;
  }

  /** `done` are the pages found before `n`, where a new one starts. */
  ghost predicate StartsPage(text: string, n: nat, done: seq<string>)
    requires n <= |text|
  {
    var parts := PageBreaks(text, n);
    parts[|parts| - 1] == "" && NonBlank(parts) == done
  }

  lemma {:induction false} EmptyPieceAdds(parts: seq<string>)
    ensures NonBlank(parts + [""]) == NonBlank(parts)
  {
    NonBlankSkips(parts, "");
    Text.TrimResult("");
  }

  lemma {:induction false} OneBreak(text: string, n: nat, done: seq<string>)
    requires n < |text| && IsBreak(text, n) && NonBlank(PageBreaks(text, n)) == done
    ensures StartsPage(text, n + 1, done)
  {
    EmptyPieceAdds(PageBreaks(text, n));
  }

  lemma {:induction false} BreakRun(text: string, n: nat, m: nat, done: seq<string>)
    requires n < m <= |text| && NonBlank(PageBreaks(text, n)) == done
    requires forall i | n <= i < m :: IsBreak(text, i)
    ensures StartsPage(text, m, done)
  {
    if n < m - 1 {
      BreakRun(text, n, m - 1, done);
    }
    OneBreak(text, m - 1, done);
  }

  lemma {:induction false} PageRun(text: string, n: nat, m: nat, done: seq<string>)
    requires n <= m <= |text| && StartsPage(text, n, done) && !Text.Blank(text[n..m])
    requires forall i | n <= i < m :: !IsBreak(text, i)
    ensures NonBlank(PageBreaks(text, m)) == done + [text[n..m]]
  {
    var parts := PageBreaks(text, n);
    var last := |parts| - 1;
    UnbrokenRun(text, n, m);
    assert "" + text[n..m] == text[n..m];
    assert parts == parts[..last] + [""];
    assert parts[last := text[n..m]] == parts[..last] + [text[n..m]];
    NonBlankSkips(parts[..last], "");
    NonBlankSkips(parts[..last], text[n..m]);
    Text.TrimResult("");
    Text.TrimResult(text[n..m]);
  }

  /** `piece` stands in the text from `n` on. */
  predicate StandsAt(text: string, n: nat, piece: string) {
    n + |piece| <= |text| && text[n..n + |piece|] == piece
  }

  lemma {:induction false} CharacterAt(text: string, n: nat, piece: string, k: nat)
    requires StandsAt(text, n, piece) && k < |piece|
    ensures text[n + k] == piece[k]
  {
    assert text[n..n + |piece|][k] == piece[k];
  }

  lemma {:induction false} PageHasNoBreak(text: string, n: nat, page: string, k: nat)
    requires IsPage(page) && StandsAt(text, n, page) && k < |page|
    ensures !IsBreak(text, n + k)
  {
    CharacterAt(text, n, page, k);
    if page[k] == '\n' {
      CharacterAt(text, n, page, k + 1);
      CharacterAt(text, n, page, k - 1);
    }
  }

  lemma {:induction false} JointBreaks(text: string, n: nat, joint: string, k: nat)
    requires IsJoint(joint) && StandsAt(text, n, joint) && k < |joint|
    ensures IsBreak(text, n + k)
  {
    CharacterAt(text, n, joint, k);
    if joint[k] == '\n' {
      if k + 1 < |joint| && joint[k + 1] == FORM_FEED {
        CharacterAt(text, n, joint, k + 1);
      } else {
        CharacterAt(text, n, joint, k - 1);
      }
    }
  }

  /** A page read from where one starts. */
  lemma {:induction false} NextPage(text: string, n: nat, page: string, done: seq<string>)
    requires IsPage(page) && StandsAt(text, n, page) && StartsPage(text, n, done)
    ensures NonBlank(PageBreaks(text, n + |page|)) == done + [page]
  {
    forall i | n <= i < n + |page| ensures !IsBreak(text, i) {
      PageHasNoBreak(text, n, page, i - n);
    }
    PageRun(text, n, n + |page|, done);
  }

  lemma {:induction false} NextStart(text: string, n: nat, joint: string)
    requires IsJoint(joint) && StandsAt(text, n, joint)
    ensures StartsPage(text, n + |joint|, NonBlank(PageBreaks(text, n)))
  {
    forall i | n <= i < n + |joint| ensures IsBreak(text, i) {
      JointBreaks(text, n, joint, i - n);
    }
    BreakRun(text, n, n + |joint|, NonBlank(PageBreaks(text, n)));
  }

  lemma {:induction false} FirstPage(page: string, text: string)
    requires IsPage(page) && page <= text
    ensures NonBlank(PageBreaks(text, |page|)) == [page]
  {
    StartOfText(text);
    NextPage(text, 0, page, []);
    assert [] + [page] == [page];
  }

  lemma {:induction false} OnePageMore(text: string, n: nat, m: nat, joint: string, page: string, done: seq<string>)
    requires IsJoint(joint) && IsPage(page) && StandsAt(text, n, joint) && StandsAt(text, n + |joint|, page)
    requires m == n + |joint| + |page| && NonBlank(PageBreaks(text, n)) == done
    ensures NonBlank(PageBreaks(text, m)) == done + [page]
  {
    NextStart(text, n, joint);
    NextPage(text, n + |joint|, page, done);
  }

  lemma {:induction false} PrefixStands(head: string, joint: string, page: string, text: string)
    requires head + joint + page <= text
    ensures head <= text && StandsAt(text, |head|, joint) && StandsAt(text, |head| + |joint|, page)
  {
    var whole := head + joint + page;
    assert text[..|whole|] == whole;
    assert text[..|head|] == whole[..|head|] == head;
    assert text[|head|..|head| + |joint|] == whole[|head|..|head| + |joint|] == joint;
    assert text[|head| + |joint|..|whole|] == whole[|head| + |joint|..] == page;
  }

  lemma {:induction false} JoinGrows(front: seq<string>, joint: string, page: string, text: string)
    requires front != [] && Text.Join(front + [page], joint) <= text
    ensures var head := Text.Join(front, joint);
      && |Text.Join(front + [page], joint)| == |head| + |joint| + |page| && head <= text
      && StandsAt(text, |head|, joint) && StandsAt(text, |head| + |joint|, page)
  {
    Text.JoinAppend(front, [page], joint);
    PrefixStands(Text.Join(front, joint), joint, page, text);
  }

  lemma {:induction false} LaterPage(front: seq<string>, joint: string, page: string, text: string)
    requires front != [] && IsJoint(joint) && IsPage(page) && Text.Join(front + [page], joint) <= text
    requires Text.Join(front, joint) <= text && NonBlank(PageBreaks(text, |Text.Join(front, joint)|)) == front
    ensures NonBlank(PageBreaks(text, |Text.Join(front + [page], joint)|)) == front + [page]
  {
    JoinGrows(front, joint, page, text);
    OnePageMore(text, |Text.Join(front, joint)|, |Text.Join(front + [page], joint)|, joint, page, front);
  }

  /** The pages at the beginning of a text are found. */
  lemma {:induction false} PagesBefore(pages: seq<string>, joint: string, text: string)
    requires pages != [] && IsJoint(joint) && forall i | 0 <= i < |pages| :: IsPage(pages[i])
    requires Text.Join(pages, joint) <= text
    ensures NonBlank(PageBreaks(text, |Text.Join(pages, joint)|)) == pages
  {
    var n := |pages| - 1;
    if n == 0 {
      assert pages == [pages[0]];
      FirstPage(pages[0], text);
    } else {
      assert pages == pages[..n] + [pages[n]];
      JoinGrows(pages[..n], joint, pages[n], text);
      PagesBefore(pages[..n], joint, text);
      LaterPage(pages[..n], joint, pages[n], text);
    }
  }

  lemma {:induction false} StartOfText(text: string)
    ensures StartsPage(text, 0, [])
  {
    Text.TrimResult("");
    assert PageBreaks(text, 0) == [""] && [""][..0] == [];
  }

  lemma {:induction false} NonBlankIsNoLonger(pieces: seq<string>)
    ensures |NonBlank(pieces)| <= |pieces|
  {
    if pieces != [] {
      NonBlankIsNoLonger(pieces[..|pieces| - 1]);
    }
  }

  /** Two or more pages joined by form feeds, with or without newlines beside them, are taken apart into those pages. */
  lemma {:induction false} JoinedPagesAreSplit(pages: seq<string>, joint: string)
    requires |pages| > 1 && IsJoint(joint) && forall i | 0 <= i < |pages| :: IsPage(pages[i])
    ensures Pages(Text.Join(pages, joint)) == pages
  {
    var text := Text.Join(pages, joint);
    PagesBefore(pages, joint, text);
    NonBlankIsNoLonger(PageBreaks(text, |text|));
  }
}
