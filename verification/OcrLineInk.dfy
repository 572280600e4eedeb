/** What becomes of the blocks' texts in the lines (ocrPostProcessor.ts): nothing visible is lost, and a bar marks each wide gap. */
module OcrLineInk {
  import opened OcrMerge
  import opened OcrLines
  import Grouping
  import Sorting

  /** How often `c` occurs in `s`. */
  function Occurs(s: string, c: char): nat {
    if s == "" then 0 else Occurs(s[..|s| - 1], c) + (if s[|s| - 1] == c then 1 else 0)
  }

  function InBlocks(blocks: seq<MergedBlock>, c: char): nat {
    if blocks == [] then 0 else InBlocks(blocks[..|blocks| - 1], c) + Occurs(blocks[|blocks| - 1].text, c)
  }

  function InLines(lines: seq<OcrLine>, c: char): nat {
    if lines == [] then 0 else InLines(lines[..|lines| - 1], c) + Occurs(lines[|lines| - 1].text, c)
  }

  lemma {:induction false} OccursAppend(a: string, b: string, c: char)
    ensures Occurs(a + b, c) == Occurs(a, c) + Occurs(b, c)
  {
    if b == "" {
      assert a + b == a;
    } else {
      assert (a + b)[..|a + b| - 1] == a + b[..|b| - 1];
      OccursAppend(a, b[..|b| - 1], c);
    }
  }

  lemma {:induction false} InBlocksAppend(a: seq<MergedBlock>, b: seq<MergedBlock>, c: char)
    ensures InBlocks(a + b, c) == InBlocks(a, c) + InBlocks(b, c)
  {
    if b == [] {
      assert a + b == a;
    } else {
      assert (a + b)[..|a + b| - 1] == a + b[..|b| - 1];
      InBlocksAppend(a, b[..|b| - 1], c);
    }
  }

  lemma {:induction false} InLinesAppend(a: seq<OcrLine>, b: seq<OcrLine>, c: char)
    ensures InLines(a + b, c) == InLines(a, c) + InLines(b, c)
  {
    if b == [] {
      assert a + b == a;
    } else {
      assert (a + b)[..|a + b| - 1] == a + b[..|b| - 1];
      InLinesAppend(a, b[..|b| - 1], c);
    }
  }

  lemma {:induction false} SingleBlock(b: MergedBlock, c: char)
    ensures InBlocks([b], c) == Occurs(b.text, c)
  {
    assert [b][..0] == [];
  }

  lemma {:induction false} InBlocksIgnoresOrder(s: seq<MergedBlock>, t: seq<MergedBlock>, c: char)
    requires multiset(s) == multiset(t)
    ensures InBlocks(s, c) == InBlocks(t, c)
    decreases |s|
  {
    if s == [] {
      assert |t| == |multiset(t)|;
    } else {
      var k := Sorting.MatchFirst(s, t);
      InBlocksIgnoresOrder(s[1..], t[..k] + t[k + 1..], c);
      assert s == [s[0]] + s[1..];
      InBlocksAppend([s[0]], s[1..], c);
      InBlocksAppend(t[..k], t[k + 1..], c);
      InBlocksAppend(t[..k] + [t[k]], t[k + 1..], c);
      InBlocksAppend(t[..k], [t[k]], c);
    }
  }

  // ----- one line

  predicate IsWide(left: MergedBlock, right: MergedBlock) {
    right.box.x1 - left.box.x2 > 0.02
  }

  /** The gaps wider than 0.02 between neighbours. */
  function WideGaps(group: Group): nat {
    if |group| <= 1 then 0
    else
      var n := |group| - 1;
      WideGaps(group[..n]) + (if IsWide(group[n - 1], group[n]) then 1 else 0)
  }

  /** A bar for each wide gap. */
  function Bars(gaps: nat, c: char): nat {
    if c == '|' then gaps else 0
  }

  lemma {:induction false} MarkOccurs(left: MergedBlock, right: MergedBlock, c: char)
    requires c != ' '
    ensures Occurs(Mark(left, right), c) == Bars(if IsWide(left, right) then 1 else 0, c)
  {
    if IsWide(left, right) {
      assert " | " == [' ', '|'] + [' '] && [' ', '|'] == [' '] + ['|'];
      OccursAppend([' ', '|'], [' '], c);
      OccursAppend([' '], ['|'], c);
      assert [' '][..0] == "" && ['|'][..0] == "";
    } else {
      assert " "[..0] == "";
    }
  }

  lemma {:induction false} ThreePartsOccur(a: string, b: string, d: string, c: char)
    ensures Occurs(a + b + d, c) == Occurs(a, c) + Occurs(b, c) + Occurs(d, c)
  {
    OccursAppend(a + b, d, c);
    OccursAppend(a, b, c);
  }

  lemma {:induction false} LastBlockOccurs(front: Group, last: MergedBlock, c: char)
    requires front != [] && c != ' '
    ensures Occurs(LineText(front + [last]), c) ==
      Occurs(LineText(front), c) + Bars(if IsWide(front[|front| - 1], last) then 1 else 0, c) + Occurs(last.text, c)
  {
    assert (front + [last])[..|front|] == front;
    ThreePartsOccur(LineText(front), Mark(front[|front| - 1], last), last.text, c);
    MarkOccurs(front[|front| - 1], last, c);
  }

  /** The text of the group has the blocks' characters, and a bar for each wide gap. */
  ghost predicate TextOccurs(group: Group, c: char)
    requires group != []
  {
    Occurs(LineText(group), c) == InBlocks(group, c) + Bars(WideGaps(group), c)
  }

  lemma {:induction false} SingleTextOccurs(b: MergedBlock, c: char)
    ensures TextOccurs([b], c)
  {
    SingleBlock(b, c);
  }

  lemma {:induction false} InBlocksSnoc(front: Group, last: MergedBlock, c: char)
    ensures InBlocks(front + [last], c) == InBlocks(front, c) + Occurs(last.text, c)
  {
    assert (front + [last])[..|front|] == front;
  }

  lemma {:induction false} WideGapsSnoc(front: Group, last: MergedBlock)
    requires front != []
    ensures WideGaps(front + [last]) == WideGaps(front) + (if IsWide(front[|front| - 1], last) then 1 else 0)
  {
    assert (front + [last])[..|front|] == front;
  }

  lemma {:induction false} LongerTextOccurs(front: Group, last: MergedBlock, c: char)
    requires front != [] && c != ' ' && TextOccurs(front, c)
    ensures TextOccurs(front + [last], c)
  {
    LastBlockOccurs(front, last, c);
    InBlocksSnoc(front, last, c);
    WideGapsSnoc(front, last);
  }

  lemma {:induction false} LineTextOccurs(group: Group, c: char)
    requires group != [] && c != ' '
    ensures TextOccurs(group, c)
  {
    var n := |group| - 1;
    if n == 0 {
      SingleTextOccurs(group[0], c);
      assert group == [group[0]];
    } else {
      LineTextOccurs(group[..n], c);
      LongerTextOccurs(group[..n], group[n], c);
      assert group == group[..n] + [group[n]];
    }
  }

  lemma {:induction false} LineOccurs(group: Group, page: int, c: char)
    requires group != [] && c != ' '
    ensures Occurs(RenderGroup(group, page).text, c) == InBlocks(group, c) + Bars(WideGaps(ByLeft(group)), c)
  {
    LineTextOccurs(ByLeft(group), c);
    Sorting.StableSortPermutes(group, LeftLe);
    InBlocksIgnoresOrder(ByLeft(group), group, c);
  }

  // ----- all lines

  function GapsOfGroups(groups: seq<Group>): nat {
    if groups == [] then 0 else GapsOfGroups(groups[..|groups| - 1]) + WideGaps(ByLeft(groups[|groups| - 1]))
  }

  /** The wide gaps of all lines of the pages. */
  function GapsOfPages(blocks: seq<MergedBlock>, pages: seq<int>): nat {
    if pages == [] then 0
    else
      var n := |pages| - 1;
      GapsOfPages(blocks, pages[..n]) + GapsOfGroups(PageGroups(Grouping.Bucket(blocks, PageOfBlock, pages[n])))
  }

  lemma {:induction false} GroupsOccur(groups: seq<Group>, page: int, c: char)
    requires c != ' ' && forall g | 0 <= g < |groups| :: groups[g] != []
    ensures InLines(RenderGroups(groups, page), c) == InBlocks(Flatten(groups), c) + Bars(GapsOfGroups(groups), c)
  {
    if groups != [] {
      var n := |groups| - 1;
      GroupsOccur(groups[..n], page, c);
      LineOccurs(groups[n], page, c);
      InBlocksAppend(Flatten(groups[..n]), groups[n], c);
      LastLineOccurs(RenderGroups(groups[..n], page), RenderGroup(groups[n], page), c);
    }
  }

  lemma {:induction false} LastLineOccurs(lines: seq<OcrLine>, last: OcrLine, c: char)
    ensures InLines(lines + [last], c) == InLines(lines, c) + Occurs(last.text, c)
  {
    assert (lines + [last])[..|lines|] == lines;
  }

  lemma {:induction false} PageOccurs(blocks: seq<MergedBlock>, page: int, c: char)
    requires c != ' '
    ensures InLines(RenderGroups(PageGroups(blocks), page), c) == InBlocks(blocks, c) + Bars(GapsOfGroups(PageGroups(blocks)), c)
  {
    var sorted := Sorting.StableSort(blocks, CenterLe);
    Sorting.StableSortPermutes(blocks, CenterLe);
    Sorting.StableSortSorts(blocks, CenterLe);
    LinesAreBands(sorted, Tolerance(blocks));
    GroupsOccur(PageGroups(blocks), page, c);
    InBlocksIgnoresOrder(sorted, blocks, c);
  }

  lemma {:induction false} LastBucketOccurs(blocks: seq<MergedBlock>, pages: seq<int>, page: int, c: char)
    ensures InBlocks(Grouping.Buckets(blocks, PageOfBlock, pages + [page]), c)
         == InBlocks(Grouping.Buckets(blocks, PageOfBlock, pages), c) + InBlocks(Grouping.Bucket(blocks, PageOfBlock, page), c)
  {
    var bucket := Grouping.Bucket(blocks, PageOfBlock, page);
    Grouping.BucketsAppend(blocks, PageOfBlock, pages, [page]);
    assert Grouping.Buckets(blocks, PageOfBlock, [page]) == bucket + Grouping.Buckets(blocks, PageOfBlock, []);
    assert bucket + [] == bucket;
    InBlocksAppend(Grouping.Buckets(blocks, PageOfBlock, pages), bucket, c);
  }

  lemma {:induction false} PagesOccur(blocks: seq<MergedBlock>, pages: seq<int>, c: char)
    requires c != ' '
    ensures InLines(LinesOf(blocks, pages), c)
         == InBlocks(Grouping.Buckets(blocks, PageOfBlock, pages), c) + Bars(GapsOfPages(blocks, pages), c)
  {
    if pages != [] {
      var n := |pages| - 1;
      var bucket := Grouping.Bucket(blocks, PageOfBlock, pages[n]);
      assert pages == pages[..n] + [pages[n]];
      PagesOccur(blocks, pages[..n], c);
      PageOccurs(bucket, pages[n], c);
      LastBucketOccurs(blocks, pages[..n], pages[n], c);
      InLinesAppend(LinesOf(blocks, pages[..n]), RenderGroups(PageGroups(bucket), pages[n]), c);
    }
  }

  /**
   Every character but the space occurs in all line texts as often as in the blocks' texts; only the bar
   occurs once more for each wide gap.
   */
  lemma {:induction false} LinesKeepTheInk(blocks: seq<MergedBlock>, c: char)
    requires c != ' '
    ensures var pages := Grouping.Keys(blocks, PageOfBlock);
      InLines(LinesOf(blocks, pages), c) == InBlocks(blocks, c) + Bars(GapsOfPages(blocks, pages), c)
  {
    var pages := Grouping.Keys(blocks, PageOfBlock);
    PagesOccur(blocks, pages, c);
    Grouping.BucketsPermute(blocks, PageOfBlock);
    InBlocksIgnoresOrder(Grouping.Buckets(blocks, PageOfBlock, pages), blocks, c);
  }
}
