/** What merging does to the blocks' texts (ocrPostProcessor.ts): it moves and keeps every visible character. */
module OcrInk {
  import opened OcrMerge
  import opened VisibleText
  import Text

  function Texts(entries: seq<Entry>): string {
    if entries == [] then "" else entries[0].text + Texts(entries[1..])
  }

  lemma {:induction false} JoinedInk(a: string, b: string)
    ensures Ink(Text.Trim(a + " " + b)) == Ink(a) + Ink(b)
  {
    TrimKeepsInk(a + " " + b);
    InkAppend(a + " ", b);
    InkAppend(a, " ");
    BlankHasNoInk(" ");
  }

  lemma {:induction false} TextsAppend(a: seq<Entry>, b: seq<Entry>)
    ensures Texts(a + b) == Texts(a) + Texts(b)
  {
    if a == [] {
      assert a + b == b;
    } else {
      assert (a + b)[1..] == a[1..] + b;
      TextsAppend(a[1..], b);
    }
  }

  lemma {:induction false} CombinedInk(a: MergedBlock, b: MergedBlock)
    ensures multiset(Ink(CombineMergedBlocks(a, b).text)) == multiset(Ink(a.text)) + multiset(Ink(b.text))
  {
    JoinedInk(a.text, b.text);
    JoinedInk(b.text, a.text);
  }

  lemma {:induction false} JoinedTexts(a: seq<Entry>, b: seq<Entry>)
    ensures multiset(Ink(Texts(a + b))) == multiset(Ink(Texts(a))) + multiset(Ink(Texts(b)))
  {
    TextsAppend(a, b);
    InkAppend(Texts(a), Texts(b));
  }

  lemma {:induction false} SingleText(e: Entry)
    ensures Texts([e]) == e.text
  {
    assert [e][1..] == [] && e.text + "" == e.text;
  }

  /** Merging keeps every character of the members' texts except whitespace, and adds none. */
  lemma {:induction false} MergedTextKeepsTheInk(t: MergeTree, page: int)
    ensures multiset(Ink(Block(t, page).text)) == multiset(Ink(Texts(Leaves(t))))
  {
    match t
    case Leaf(e) => SingleText(e);
    case Join(l, r) =>
      MergedTextKeepsTheInk(l, page);
      MergedTextKeepsTheInk(r, page);
      JoinedTexts(Leaves(l), Leaves(r));
      CombinedInk(Block(l, page), Block(r, page));
  }

  /** Of two merged blocks the one further left comes first. */
  lemma {:induction false} LeftTextComesFirst(a: MergedBlock, b: MergedBlock)
    requires a.box.x1 != b.box.x1
    ensures var first, second := if a.box.x1 < b.box.x1 then a else b, if a.box.x1 < b.box.x1 then b else a;
      Ink(CombineMergedBlocks(a, b).text) == Ink(first.text) + Ink(second.text)
    ensures CombineMergedBlocks(a, b).text == CombineMergedBlocks(b, a).text
  {
    JoinedInk(a.text, b.text);
    JoinedInk(b.text, a.text);
  }
}
