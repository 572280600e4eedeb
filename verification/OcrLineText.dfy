/** What the tolerance and the text of a line mean (ocrPostProcessor.ts), apart from how they are computed. */
module OcrLineText {
  import opened OcrMerge
  import opened OcrLines
  import Sorting
  import Text

  /** Half of the heights, or one more, lie on either side of the median. */
  lemma {:induction false} MedianSplits(sorted: seq<real>, i: nat)
    requires Sorting.Sorted(sorted, RealLe) && i < |sorted|
    ensures 2 * i < |sorted| ==> sorted[i] <= Median(sorted)
    ensures 2 * i >= |sorted| - 1 ==> Median(sorted) <= sorted[i]
  {
    var mid := |sorted| / 2;
    if i != mid { assert RealLe(sorted[if i < mid then i else mid], sorted[if i < mid then mid else i]); }
    if |sorted| % 2 == 0 {
      assert RealLe(sorted[mid - 1], sorted[mid]);
      if i < mid - 1 { assert RealLe(sorted[i], sorted[mid - 1]); }
    }
  }

  /** 0.55 of a height, but at least 0.010. */
  function Share(height: real): real {
    if height * 0.55 < 0.010 then 0.010 else height * 0.55
  }

  lemma {:induction false} ShareGrows(a: real, b: real)
    requires a <= b
    ensures Share(a) <= Share(b)
  {
  }

  /** The positive heights in ascending order. */
  ghost predicate OrdersHeights(heights: seq<real>, blocks: seq<MergedBlock>) {
    multiset(heights) == multiset(PositiveHeights(blocks)) && Sorting.Sorted(heights, RealLe)
  }

  lemma {:induction false} OrderedHeightsAreSorted(blocks: seq<MergedBlock>, heights: seq<real>)
    requires OrdersHeights(heights, blocks)
    ensures heights == Sorting.StableSort(PositiveHeights(blocks), RealLe)
    ensures heights == [] <==> PositiveHeights(blocks) == []
  {
    RealOrder();
    Sorting.StableSortPermutes(PositiveHeights(blocks), RealLe);
    Sorting.StableSortSorts(PositiveHeights(blocks), RealLe);
    Sorting.SortedIsUnique(heights, Sorting.StableSort(PositiveHeights(blocks), RealLe), RealLe);
  }

  lemma {:induction false} MedianShareBounds(sorted: seq<real>, i: nat)
    requires Sorting.Sorted(sorted, RealLe) && i < |sorted|
    ensures 2 * i < |sorted| ==> Share(sorted[i]) <= Share(Median(sorted))
    ensures |sorted| <= 2 * i + 1 ==> Share(Median(sorted)) <= Share(sorted[i])
  {
    MedianSplits(sorted, i);
    if 2 * i < |sorted| { ShareGrows(sorted[i], Median(sorted)); }
    if |sorted| <= 2 * i + 1 { ShareGrows(Median(sorted), sorted[i]); }
  }

  lemma {:induction false} MedianOfEven(sorted: seq<real>, i: nat)
    requires |sorted| == 2 * i > 0
    ensures Median(sorted) == (sorted[i - 1] + sorted[i]) / 2.0
  {
  }

  /**
   The tolerance is 0.015 when no block has a height; otherwise it is the share of the height in the middle
   of their order, or of the mean of the two in the middle.
   */
  lemma {:induction false} ToleranceIsMedianShare(blocks: seq<MergedBlock>, heights: seq<real>, i: nat)
    requires OrdersHeights(heights, blocks)
    ensures heights == [] ==> Tolerance(blocks) == 0.015
    ensures 2 * i < |heights| ==> Share(heights[i]) <= Tolerance(blocks)
    ensures i < |heights| <= 2 * i + 1 ==> Tolerance(blocks) <= Share(heights[i])
    ensures |heights| == 2 * i > 0 ==> Tolerance(blocks) == Share((heights[i - 1] + heights[i]) / 2.0)
  {
    OrderedHeightsAreSorted(blocks, heights);
    if heights != [] {
      ToleranceOfSorted(blocks, heights);
      if i < |heights| { MedianShareBounds(heights, i); }
      if |heights| == 2 * i { MedianOfEven(heights, i); }
    }
  }

  lemma {:induction false} RealOrder()
    ensures Sorting.TotalPreorder(RealLe) && forall x, y | RealLe(x, y) && RealLe(y, x) :: x == y
  {
  }

  lemma {:induction false} ToleranceOfSorted(blocks: seq<MergedBlock>, sorted: seq<real>)
    requires sorted == Sorting.StableSort(PositiveHeights(blocks), RealLe) != []
    ensures Tolerance(blocks) == Share(Median(sorted))
  {
  }

  // ----- the order and the text of a line

  /** Blocks with the same left edge stay in the order in which they joined the line. */
  lemma {:induction false} TiesKeepTheirOrder(group: Group, left: real)
    ensures Sorting.Filter(ByLeft(group), (b: MergedBlock) => b.box.x1 == left)
         == Sorting.Filter(group, (b: MergedBlock) => b.box.x1 == left)
  {
    Sorting.StableSortIsStable(group, LeftLe, (b: MergedBlock) => b.box.x1 == left);
  }

  function BlockTexts(group: Group): seq<string> {
    seq(|group|, i requires 0 <= i < |group| => group[i].text)
  }

  /** Every gap between neighbours is wider than 0.02, respectively none is. */
  ghost predicate AllGaps(group: Group, wide: bool) {
    forall i | 1 <= i < |group| :: group[i].box.x1 - group[i - 1].box.x2 > 0.02 <==> wide
  }

  /** A run of close blocks reads as words, a row of distant ones as columns. */
  lemma {:induction false} LineTextIsWordsOrColumns(group: Group, wide: bool)
    requires group != [] && AllGaps(group, wide)
    ensures LineText(group) == Text.Join(BlockTexts(group), if wide then " | " else " ")
  {
    var n := |group| - 1;
    if n > 0 {
      LineTextIsWordsOrColumns(group[..n], wide);
      assert BlockTexts(group) == BlockTexts(group[..n]) + [group[n].text];
      Text.JoinAppend(BlockTexts(group[..n]), [group[n].text], if wide then " | " else " ");
    }
  }

  lemma {:induction false} LineTextSnoc(front: Group, last: MergedBlock)
    requires front != []
    ensures LineText(front + [last]) == LineText(front) + Mark(front[|front| - 1], last) + last.text
  {
    assert (front + [last])[..|front|] == front;
  }

  /** A line is the text of any two parts of it and the mark for the gap between them. */
  lemma {:induction false} LineTextCuts(left: Group, right: Group)
    requires left != [] && right != []
    ensures LineText(left + right) == LineText(left) + Mark(left[|left| - 1], right[0]) + LineText(right)
  {
    var n := |right| - 1;
    var front, last := right[..n], right[n];
    assert left + right == (left + front) + [last] && right == front + [last];
    LineTextSnoc(left + front, last);
    if n == 0 {
      assert left + front == left;
    } else {
      LineTextCuts(left, front);
      LineTextSnoc(front, last);
      Reassociate(LineText(left), Mark(left[|left| - 1], right[0]), LineText(front), Mark(front[n - 1], last), last.text);
    }
  }

  lemma {:induction false} Reassociate(a: string, b: string, c: string, d: string, e: string)
    ensures (a + b + c) + d + e == a + b + (c + d + e)
  {
  }
}
