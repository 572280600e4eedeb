/**
 The lines of a page, told by the tops and bottoms of its blocks (ocrPostProcessor.ts). A block's centre is
 half the sum of its top and bottom.
 */
module OcrLineBands {
  import opened Geometry
  import opened OcrMerge
  import opened OcrLines
  import Grouping
  import Sorting

  /** Top and bottom together: twice the height of the centre on the page. */
  function TopAndBottom(b: MergedBlock): real {
    b.box.y1 + b.box.y2
  }

  lemma {:induction false} PageLines(blocks: seq<MergedBlock>)
    ensures var groups := PageGroups(blocks);
      && Banded(groups, Tolerance(blocks))
      && multiset(Flatten(groups)) == multiset(blocks)
      && forall g, h, x, y | 0 <= g < h < |groups| && 0 <= x < |groups[g]| && 0 <= y < |groups[h]| ::
           CenterY(groups[g][x]) < CenterY(groups[h][y])
  {
    Sorting.StableSortSorts(blocks, CenterLe);
    Sorting.StableSortPermutes(blocks, CenterLe);
    LinesAreBands(Sorting.StableSort(blocks, CenterLe), Tolerance(blocks));
  }

  /** A member of a line lies below its first block by at most the tolerance, centre to centre. */
  lemma {:induction false} MemberIsNearSeed(blocks: seq<MergedBlock>, g: nat, m: nat)
    requires g < |PageGroups(blocks)| && m < |PageGroups(blocks)[g]|
    ensures var line := PageGroups(blocks)[g];
      0.0 <= TopAndBottom(line[m]) - TopAndBottom(line[0]) <= 2.0 * Tolerance(blocks)
  {
    PageLines(blocks);
    assert Band(PageGroups(blocks)[g], Tolerance(blocks));
  }

  /** The first blocks of two lines are more than the tolerance apart, the later line lower. */
  lemma {:induction false} SeedsAreFarApart(blocks: seq<MergedBlock>, g: nat, h: nat)
    requires g < h < |PageGroups(blocks)|
    ensures var lines := PageGroups(blocks);
      TopAndBottom(lines[h][0]) - TopAndBottom(lines[g][0]) > 2.0 * Tolerance(blocks)
  {
    PageLines(blocks);
    assert SeedsApart(PageGroups(blocks)[g], PageGroups(blocks)[h], Tolerance(blocks));
  }

  /** Every block of a later line is lower than every block of an earlier one. */
  lemma {:induction false} LaterLinesAreLower(blocks: seq<MergedBlock>, g: nat, h: nat, x: nat, y: nat)
    requires g < h < |PageGroups(blocks)| && x < |PageGroups(blocks)[g]| && y < |PageGroups(blocks)[h]|
    ensures TopAndBottom(PageGroups(blocks)[g][x]) < TopAndBottom(PageGroups(blocks)[h][y])
  {
    PageLines(blocks);
    assert CenterY(PageGroups(blocks)[g][x]) < CenterY(PageGroups(blocks)[h][y]);
  }

  /** Blocks level with one another are on the same line, however high each is. */
  lemma {:induction false} LevelBlocksShareALine(blocks: seq<MergedBlock>, g: nat, h: nat, x: nat, y: nat)
    requires g < |PageGroups(blocks)| && h < |PageGroups(blocks)|
    requires x < |PageGroups(blocks)[g]| && y < |PageGroups(blocks)[h]|
    requires TopAndBottom(PageGroups(blocks)[g][x]) == TopAndBottom(PageGroups(blocks)[h][y])
    ensures g == h
  {
    if g < h {
      LaterLinesAreLower(blocks, g, h, x, y);
    } else if h < g {
      LaterLinesAreLower(blocks, h, g, y, x);
    }
  }

  ghost predicate OnALine(groups: seq<Group>, b: MergedBlock) {
    exists g | 0 <= g < |groups| :: b in groups[g]
  }

  /** Every block of the page is on some line of it, and no other block is. */
  lemma {:induction false} BlockIsOnALine(blocks: seq<MergedBlock>, b: MergedBlock)
    ensures b in blocks <==> OnALine(PageGroups(blocks), b)
  {
    PageLines(blocks);
    Sorting.SameElements(Flatten(PageGroups(blocks)), blocks, b);
    InFlattenIff(PageGroups(blocks), b);
  }

  lemma {:induction false} OnALineSnoc(front: seq<Group>, last: Group, b: MergedBlock)
    ensures OnALine(front + [last], b) <==> OnALine(front, b) || b in last
  {
    var groups := front + [last];
    if OnALine(front, b) {
      var g :| 0 <= g < |front| && b in front[g];
      assert b in groups[g];
    }
    if b in last {
      assert b in groups[|front|];
    }
    if OnALine(groups, b) {
      var g :| 0 <= g < |groups| && b in groups[g];
      if g < |front| {
        assert b in front[g];
      }
    }
  }

  lemma {:induction false} InFlattenIff(groups: seq<Group>, b: MergedBlock)
    ensures b in Flatten(groups) <==> OnALine(groups, b)
  {
    if groups != [] {
      var n := |groups| - 1;
      InFlattenIff(groups[..n], b);
      OnALineSnoc(groups[..n], groups[n], b);
      assert groups == groups[..n] + [groups[n]];
    }
  }

  // ----- what goes into a page, and the order within a line

  /** The heights the tolerance is taken from are exactly the positive ones. */
  lemma {:induction false} PositiveHeightsIff(blocks: seq<MergedBlock>, h: real)
    ensures h in PositiveHeights(blocks) <==> h > 0.0 && exists b | b in blocks :: b.box.y2 - b.box.y1 == h
  {
    if blocks != [] {
      PositiveHeightsIff(blocks[1..], h);
      assert blocks == [blocks[0]] + blocks[1..];
      if exists b | b in blocks :: b.box.y2 - b.box.y1 == h {
        var b :| b in blocks && b.box.y2 - b.box.y1 == h;
        assert b == blocks[0] || b in blocks[1..];
      }
    }
  }

  /** A line reads from left to right. */
  lemma {:induction false} LineReadsRightwards(group: Group, i: nat, j: nat)
    requires i < j < |group|
    ensures ByLeft(group)[i].box.x1 <= ByLeft(group)[j].box.x1
    ensures multiset(ByLeft(group)) == multiset(group)
  {
    Sorting.StableSortSorts(group, LeftLe);
    Sorting.StableSortPermutes(group, LeftLe);
    assert LeftLe(ByLeft(group)[i], ByLeft(group)[j]);
  }

  /** `line` is rendered from some line of the blocks of page `page`, and of no others. */
  ghost predicate IsLineOfPage(line: OcrLine, blocks: seq<MergedBlock>, page: int) {
    exists bucket: seq<MergedBlock>, g ::
      && 0 <= g < |PageGroups(bucket)| && line == RenderGroup(PageGroups(bucket)[g], page)
      && line.page == page && forall b :: b in bucket <==> b in blocks && b.page == page
  }

  lemma {:induction false} RenderedFrom(groups: seq<Group>, page: int, line: OcrLine) returns (g: nat)
    requires (forall h | 0 <= h < |groups| :: groups[h] != []) && line in RenderGroups(groups, page)
    ensures g < |groups| && line == RenderGroup(groups[g], page)
  {
    var n := |groups| - 1;
    if line in RenderGroups(groups[..n], page) {
      g := RenderedFrom(groups[..n], page, line);
    } else {
      g := n;
    }
  }

  /** Every line of the document is a line of the blocks of one page. */
  lemma {:induction false} LinesStayOnTheirPage(blocks: seq<MergedBlock>, pages: seq<int>, line: OcrLine)
    requires line in LinesOf(blocks, pages)
    ensures line.page in pages && IsLineOfPage(line, blocks, line.page)
  {
    var n := |pages| - 1;
    var page := pages[n];
    var bucket := Grouping.Bucket(blocks, PageOfBlock, page);
    if line in RenderGroups(PageGroups(bucket), page) {
      var g := RenderedFrom(PageGroups(bucket), page, line);
      Grouping.BucketMembers(blocks, PageOfBlock, page);
      assert forall b :: b in bucket <==> b in blocks && PageOfBlock(b) == page;
      assert IsLineOfPage(line, blocks, page);
    } else {
      LinesStayOnTheirPage(blocks, pages[..n], line);
    }
  }
}
