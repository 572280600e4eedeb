/**
 Grouping of merged OCR blocks into text lines (ocrPostProcessor.ts): per page, blocks sorted by
 vertical centre are placed first-fit into the first line whose seed is within a tolerance.
 */
module OcrLines {
  import opened Geometry
  import opened OcrMerge
  import Grouping
  import Sorting

  datatype OcrLine = OcrLine(text: string, page: int, blockIndices: seq<nat>, box: Box)

  type Group = seq<MergedBlock>

  function CenterY(b: MergedBlock): real {
    (b.box.y1 + b.box.y2) / 2.0
  }

  predicate CenterLe(a: MergedBlock, b: MergedBlock) {
    CenterY(a) <= CenterY(b)
  }

  predicate LeftLe(a: MergedBlock, b: MergedBlock) {
    a.box.x1 <= b.box.x1
  }

  predicate RealLe(x: real, y: real) {
    x <= y
  }

  function PageOfBlock(b: MergedBlock): int {
    b.page
  }

  // ----- the tolerance

  function PositiveHeights(blocks: seq<MergedBlock>): seq<real> {
    if blocks == [] then []
    else
      var h := blocks[0].box.y2 - blocks[0].box.y1;
      (if h > 0.0 then [h] else []) + PositiveHeights(blocks[1..])
  }

  function Median(sorted: seq<real>): real
    requires sorted != []
  {
    var mid := |sorted| / 2;
    if |sorted| % 2 == 1 then sorted[mid] else (sorted[mid - 1] + sorted[mid]) / 2.0
  }

  /** 0.55 of the median positive block height, at least 0.010; 0.015 when no block has a height. */
  function Tolerance(blocks: seq<MergedBlock>): (t: real)
    ensures t >= 0.010
  {
    var heights := PositiveHeights(blocks);
    if heights == [] then 0.015
    else
      Sorting.StableSortPermutes(heights, RealLe);
      Max(0.010, Median(Sorting.StableSort(heights, RealLe)) * 0.55)
  }

  // ----- first fit, and the linear sweep it amounts to

  predicate Accepts(group: Group, b: MergedBlock, tolerance: real) {
    group != [] && -tolerance <= CenterY(b) - CenterY(group[0]) <= tolerance
  }

  /** Adds `b` to the first group that accepts it, or opens a new group at the end. */
  function Place(groups: seq<Group>, b: MergedBlock, tolerance: real): seq<Group> {
    if groups == [] then [[b]]
    else if Accepts(groups[0], b, tolerance) then [groups[0] + [b]] + groups[1..]
    else [groups[0]] + Place(groups[1..], b, tolerance)
  }

  lemma {:induction false} PlaceAt(groups: seq<Group>, b: MergedBlock, tolerance: real, g: nat)
    requires g <= |groups| && forall h | 0 <= h < g :: !Accepts(groups[h], b, tolerance)
    ensures g == |groups| ==> Place(groups, b, tolerance) == groups + [[b]]
    ensures g < |groups| && Accepts(groups[g], b, tolerance) ==>
      Place(groups, b, tolerance) == groups[g := groups[g] + [b]]
  {
    if groups == [] {
    } else if g == 0 {
    } else {
      PlaceAt(groups[1..], b, tolerance, g - 1);
    }
  }

  function FirstFit(blocks: seq<MergedBlock>, tolerance: real): seq<Group> {
    if blocks == [] then [] else Place(FirstFit(blocks[..|blocks| - 1], tolerance), blocks[|blocks| - 1], tolerance)
  }

  /** Looks at the newest group only. */
  function Append(groups: seq<Group>, b: MergedBlock, tolerance: real): seq<Group> {
    if groups != [] && Accepts(groups[|groups| - 1], b, tolerance)
    then groups[..|groups| - 1] + [groups[|groups| - 1] + [b]]
    else groups + [[b]]
  }

  function Sweep(blocks: seq<MergedBlock>, tolerance: real): seq<Group> {
    if blocks == [] then [] else Append(Sweep(blocks[..|blocks| - 1], tolerance), blocks[|blocks| - 1], tolerance)
  }

  function Flatten(groups: seq<Group>): seq<MergedBlock> {
    if groups == [] then [] else Flatten(groups[..|groups| - 1]) + groups[|groups| - 1]
  }

  /** The members lie at or below the seed, within the tolerance. */
  ghost predicate Band(group: Group, tolerance: real) {
    group != [] && forall m | 0 <= m < |group| :: 0.0 <= CenterY(group[m]) - CenterY(group[0]) <= tolerance
  }

  ghost predicate SeedsApart(a: Group, b: Group, tolerance: real)
    requires a != [] && b != []
  {
    CenterY(b[0]) - CenterY(a[0]) > tolerance
  }

  ghost predicate Banded(groups: seq<Group>, tolerance: real) {
    && (forall g | 0 <= g < |groups| :: Band(groups[g], tolerance))
    && (forall g, h | 0 <= g < h < |groups| :: SeedsApart(groups[g], groups[h], tolerance))
  }

  ghost predicate EndsAbove(group: Group, y: real) {
    forall m | 0 <= m < |group| :: CenterY(group[m]) <= y
  }

  ghost predicate AllEndAbove(groups: seq<Group>, y: real) {
    forall g | 0 <= g < |groups| :: EndsAbove(groups[g], y)
  }

  lemma {:induction false} ExtendBand(group: Group, b: MergedBlock, tolerance: real)
    requires Band(group, tolerance) && EndsAbove(group, CenterY(b)) && Accepts(group, b, tolerance)
    ensures Band(group + [b], tolerance) && EndsAbove(group + [b], CenterY(b))
  {
  }

  lemma {:induction false} RefusedIsFarBelow(group: Group, b: MergedBlock, tolerance: real)
    requires Band(group, tolerance) && EndsAbove(group, CenterY(b)) && !Accepts(group, b, tolerance)
    ensures SeedsApart(group, [b], tolerance)
  {
  }

  lemma {:induction false} SeedsApartIsMonotone(a: Group, b: Group, c: MergedBlock, tolerance: real)
    requires tolerance >= 0.0 && Band(a, tolerance) && Band(b, tolerance) && SeedsApart(a, b, tolerance)
    requires EndsAbove(b, CenterY(c))
    ensures SeedsApart(a, [c], tolerance) && !Accepts(a, c, tolerance)
  {
  }

  lemma {:induction false} FlattenSnoc(groups: seq<Group>, g: Group)
    ensures Flatten(groups + [g]) == Flatten(groups) + g
  {
    assert (groups + [g])[..|groups|] == groups;
  }

  lemma {:induction false} BandedSnoc(front: seq<Group>, last: Group, tolerance: real, y: real)
    requires Banded(front, tolerance) && Band(last, tolerance)
    requires forall g | 0 <= g < |front| :: SeedsApart(front[g], last, tolerance)
    requires AllEndAbove(front, y) && EndsAbove(last, y)
    ensures Banded(front + [last], tolerance) && AllEndAbove(front + [last], y)
    ensures Flatten(front + [last]) == Flatten(front) + last
  {
    FlattenSnoc(front, last);
    var groups := front + [last];
    assert forall g | 0 <= g < |front| :: groups[g] == front[g];
  }

  lemma {:induction false} AppendKeepsBands(groups: seq<Group>, b: MergedBlock, tolerance: real)
    requires tolerance >= 0.0 && Banded(groups, tolerance) && AllEndAbove(groups, CenterY(b))
    ensures Banded(Append(groups, b, tolerance), tolerance)
    ensures AllEndAbove(Append(groups, b, tolerance), CenterY(b))
    ensures Flatten(Append(groups, b, tolerance)) == Flatten(groups) + [b]
  {
    if groups == [] {
      BandedSnoc([], [b], tolerance, CenterY(b));
    } else if Accepts(groups[|groups| - 1], b, tolerance) {
      AcceptedExtendsBands(groups[..|groups| - 1], groups[|groups| - 1], b, tolerance);
    } else {
      var last := groups[|groups| - 1];
      RefusedIsFarBelow(last, b, tolerance);
      forall g | 0 <= g < |groups| ensures SeedsApart(groups[g], [b], tolerance) {
        if g < |groups| - 1 {
          SeedsApartIsMonotone(groups[g], last, b, tolerance);
        }
      }
      BandedSnoc(groups, [b], tolerance, CenterY(b));
    }
  }

  lemma {:induction false} AcceptedExtendsBands(front: seq<Group>, last: Group, b: MergedBlock, tolerance: real)
    requires Banded(front + [last], tolerance) && AllEndAbove(front + [last], CenterY(b))
    requires Accepts(last, b, tolerance)
    ensures Banded(front + [last + [b]], tolerance) && AllEndAbove(front + [last + [b]], CenterY(b))
    ensures Flatten(front + [last + [b]]) == Flatten(front + [last]) + [b]
  {
    var groups := front + [last];
    assert groups[|front|] == last;
    assert forall g | 0 <= g < |front| :: groups[g] == front[g];
    ExtendBand(last, b, tolerance);
    FlattenSnoc(front, last);
    forall g | 0 <= g < |front| ensures SeedsApart(front[g], last + [b], tolerance) {
      assert SeedsApart(groups[g], groups[|front|], tolerance);
    }
    BandedSnoc(front, last + [b], tolerance, CenterY(b));
  }

  /** On bands that end above `b`, first fit can only ever choose the newest group. */
  lemma {:induction false} OnlyNewestAccepts(groups: seq<Group>, b: MergedBlock, tolerance: real)
    requires tolerance >= 0.0 && Banded(groups, tolerance) && AllEndAbove(groups, CenterY(b))
    ensures Place(groups, b, tolerance) == Append(groups, b, tolerance)
  {
    if groups == [] {
    } else {
      var n := |groups| - 1;
      forall g | 0 <= g < n ensures !Accepts(groups[g], b, tolerance) {
        SeedsApartIsMonotone(groups[g], groups[n], b, tolerance);
      }
      if Accepts(groups[n], b, tolerance) {
        PlaceAt(groups, b, tolerance, n);
      } else {
        PlaceAt(groups, b, tolerance, n + 1);
      }
    }
  }

  lemma {:induction false} EndsAboveIsMonotone(groups: seq<Group>, y: real, z: real)
    requires AllEndAbove(groups, y) && y <= z
    ensures AllEndAbove(groups, z)
  {
  }

  /** What ends above the last block of the front ends above the next one too. */
  lemma {:induction false} NextIsBelow(front: seq<MergedBlock>, b: MergedBlock, groups: seq<Group>)
    requires Sorting.Sorted(front + [b], CenterLe) && (front == [] ==> groups == [])
    requires front != [] ==> AllEndAbove(groups, CenterY(front[|front| - 1]))
    ensures Sorting.Sorted(front, CenterLe) && AllEndAbove(groups, CenterY(b))
  {
    var blocks := front + [b];
    forall i, j | 0 <= i < j < |front| ensures CenterLe(front[i], front[j]) {
      assert CenterLe(blocks[i], blocks[j]);
    }
    if front != [] {
      assert CenterLe(blocks[|front| - 1], blocks[|front|]);
      EndsAboveIsMonotone(groups, CenterY(front[|front| - 1]), CenterY(b));
    }
  }

  lemma {:induction false} SortedFront(front: seq<MergedBlock>, b: MergedBlock)
    requires Sorting.Sorted(front + [b], CenterLe)
    ensures Sorting.Sorted(front, CenterLe)
  {
    forall i, j | 0 <= i < j < |front| ensures CenterLe(front[i], front[j]) {
      assert CenterLe((front + [b])[i], (front + [b])[j]);
    }
  }

  lemma {:induction false} SweepIsBanded(blocks: seq<MergedBlock>, tolerance: real)
    requires tolerance >= 0.0 && Sorting.Sorted(blocks, CenterLe)
    ensures Banded(Sweep(blocks, tolerance), tolerance)
    ensures Flatten(Sweep(blocks, tolerance)) == blocks
    ensures blocks != [] ==> AllEndAbove(Sweep(blocks, tolerance), CenterY(blocks[|blocks| - 1]))
  {
    if blocks != [] {
      var front, b := blocks[..|blocks| - 1], blocks[|blocks| - 1];
      assert blocks == front + [b];
      SortedFront(front, b);
      SweepIsBanded(front, tolerance);
      NextIsBelow(front, b, Sweep(front, tolerance));
      AppendKeepsBands(Sweep(front, tolerance), b, tolerance);
    }
  }

  /** The quadratic first fit equals the linear sweep on blocks sorted by centre. */
  lemma {:induction false} FirstFitIsSweep(blocks: seq<MergedBlock>, tolerance: real)
    requires tolerance >= 0.0 && Sorting.Sorted(blocks, CenterLe)
    ensures FirstFit(blocks, tolerance) == Sweep(blocks, tolerance)
  {
    if blocks == [] {
    } else {
      var front, b := blocks[..|blocks| - 1], blocks[|blocks| - 1];
      FirstFitIsSweep(front, tolerance);
      SweepIsBanded(front, tolerance);
      if front != [] {
        assert CenterLe(blocks[|front| - 1], b);
      }
      EndsAboveIsMonotone(Sweep(front, tolerance), if front == [] then CenterY(b) else CenterY(front[|front| - 1]), CenterY(b));
      OnlyNewestAccepts(Sweep(front, tolerance), b, tolerance);
    }
  }

  /**
   What first fit does to a sorted page: consecutive runs, in order, seeds more than the tolerance
   apart, members within it of their seed, and every block of a later line strictly below every
   block of an earlier one.
   */
  lemma {:induction false} LinesAreBands(blocks: seq<MergedBlock>, tolerance: real)
    requires tolerance >= 0.0 && Sorting.Sorted(blocks, CenterLe)
    ensures var groups := FirstFit(blocks, tolerance);
      && Flatten(groups) == blocks
      && Banded(groups, tolerance)
      && forall g, h, x, y | 0 <= g < h < |groups| && 0 <= x < |groups[g]| && 0 <= y < |groups[h]| ::
           CenterY(groups[g][x]) < CenterY(groups[h][y])
  {
    FirstFitIsSweep(blocks, tolerance);
    SweepIsBanded(blocks, tolerance);
    var groups := FirstFit(blocks, tolerance);
    forall g, h, x, y | 0 <= g < h < |groups| && 0 <= x < |groups[g]| && 0 <= y < |groups[h]|
      ensures CenterY(groups[g][x]) < CenterY(groups[h][y])
    {
      assert CenterY(groups[h][0]) - CenterY(groups[g][0]) > tolerance;
    }
  }

  /** Without the sort the two differ: a block can go back into an older line. */
  lemma {:induction false} UnsortedFirstFitDiffers()
    ensures exists blocks: seq<MergedBlock> :: FirstFit(blocks, 0.1) != Sweep(blocks, 0.1)
  {
    var a := MergedBlock("", 1, [0], Box(0.0, 0.0, 1.0, 0.0));
    var b := MergedBlock("", 1, [1], Box(0.0, 1.0, 1.0, 1.0));
    var s := [a, b, a];
    assert s[..2] == [a, b] && [a, b][..1] == [a] && [a][..0] == [];
    assert FirstFit([a], 0.1) == [[a]] && Sweep([a], 0.1) == [[a]];
    assert !Accepts([a], b, 0.1) && !Accepts([b], a, 0.1) && Accepts([a], a, 0.1);
    PlaceAt([[a]], b, 0.1, 1);
    assert FirstFit([a, b], 0.1) == [[a], [b]] && Sweep([a, b], 0.1) == [[a], [b]];
    PlaceAt([[a], [b]], a, 0.1, 0);
    assert FirstFit(s, 0.1) == Place(FirstFit(s[..2], 0.1), a, 0.1) == [[a], [b]][0 := [a] + [a]];
    assert |FirstFit(s, 0.1)| == 2;
    assert Sweep(s, 0.1) == [[a], [b], [a]];
  }

  // ----- the loops

  method GroupLines(sorted: seq<MergedBlock>, tolerance: real) returns (groups: seq<Group>)
    ensures groups == FirstFit(sorted, tolerance)
  {
    groups := [];
    for i := 0 to |sorted|
      invariant groups == FirstFit(sorted[..i], tolerance)
      invariant forall g | 0 <= g < |groups| :: groups[g] != []
    {
      var block := sorted[i];
      ghost var before := groups;
      var placed := false;
      var g := 0;
      while g < |groups| && !placed
        invariant 0 <= g <= |groups|
        invariant forall h | 0 <= h < |groups| :: groups[h] != []
        invariant !placed ==> groups == before && forall h | 0 <= h < g :: !Accepts(groups[h], block, tolerance)
        invariant placed ==> groups == Place(before, block, tolerance)
        decreases |groups| - g, !placed
      {
        var offset := CenterY(block) - CenterY(groups[g][0]);
        if -tolerance <= offset <= tolerance {
          PlaceAt(groups, block, tolerance, g);
          groups := groups[g := groups[g] + [block]];
          placed := true;
        } else {
          g := g + 1;
        }
      }
      if !placed {
        PlaceAt(groups, block, tolerance, g);
        groups := groups + [[block]];
      }
      assert sorted[..i + 1][..i] == sorted[..i];
    }
    assert sorted[..|sorted|] == sorted;
  }

  // ----- rendering a line, and a whole page

  /** The blocks' texts from left to right, joined by " | " across a gap wider than 0.02. */
  function LineText(group: Group): string
    requires group != []
  {
    var n := |group| - 1;
    if n == 0 then group[0].text
    else
      LineText(group[..n]) + Mark(group[n - 1], group[n]) + group[n].text
  }

  /** What stands between two neighbours of a line. */
  function Mark(left: MergedBlock, right: MergedBlock): string {
    if right.box.x1 - left.box.x2 > 0.02 then " | " else " "
  }

  function GroupHull(group: Group): Box
    requires group != []
  {
    if |group| == 1 then group[0].box else Hull(GroupHull(group[..|group| - 1]), group[|group| - 1].box)
  }

  function BlockBoxes(group: Group): seq<Box> {
    seq(|group|, i requires 0 <= i < |group| => group[i].box)
  }

  function ByLeft(group: Group): (sorted: Group)
    ensures |sorted| == |group|
  {
    Sorting.StableSortPermutes(group, LeftLe);
    Sorting.StableSort(group, LeftLe)
  }

  function RenderGroup(group: Group, page: int): OcrLine
    requires group != []
  {
    var byLeft := ByLeft(group);
    OcrLine(LineText(byLeft), page, Sorting.StableSort(AllIndices(byLeft), NatLe), GroupHull(byLeft))
  }

  lemma {:induction false} GroupHullIsHull(group: Group)
    requires group != []
    ensures IsHull(GroupHull(group), BlockBoxes(group))
  {
    var n := |group| - 1;
    assert group == group[..n] + [group[n]];
    if n == 0 {
      HullOfSingle(group[0].box);
      assert BlockBoxes(group) == [group[0].box];
    } else {
      GroupHullIsHull(group[..n]);
      HullOfSingle(group[n].box);
      HullOfConcat(GroupHull(group[..n]), group[n].box, BlockBoxes(group[..n]), [group[n].box]);
      assert BlockBoxes(group) == BlockBoxes(group[..n]) + [group[n].box];
    }
  }

  function RenderGroups(groups: seq<Group>, page: int): seq<OcrLine>
    requires forall g | 0 <= g < |groups| :: groups[g] != []
  {
    if groups == [] then []
    else RenderGroups(groups[..|groups| - 1], page) + [RenderGroup(groups[|groups| - 1], page)]
  }

  function PageGroups(blocks: seq<MergedBlock>): (groups: seq<Group>)
    ensures forall g | 0 <= g < |groups| :: groups[g] != []
  {
    var sorted := Sorting.StableSort(blocks, CenterLe);
    Sorting.StableSortSorts(blocks, CenterLe);
    LinesAreBands(sorted, Tolerance(blocks));
    FirstFit(sorted, Tolerance(blocks))
  }

  function LinesOf(blocks: seq<MergedBlock>, pages: seq<int>): seq<OcrLine> {
    if pages == [] then []
    else
      var n := |pages| - 1;
      LinesOf(blocks, pages[..n]) + RenderGroups(PageGroups(Grouping.Bucket(blocks, PageOfBlock, pages[n])), pages[n])
  }

  lemma {:induction false} RenderStep(group: Group, i: nat)
    requires 1 <= i < |group|
    ensures group[..i + 1] != []
    ensures LineText(group[..i + 1]) ==
      LineText(group[..i]) + Mark(group[i - 1], group[i]) + group[i].text
    ensures AllIndices(group[..i + 1]) == AllIndices(group[..i]) + group[i].blockIndices
    ensures GroupHull(group[..i + 1]) == Hull(GroupHull(group[..i]), group[i].box)
  {
    assert group[..i + 1][..i] == group[..i] && group[..i + 1] == group[..i] + [group[i]];
    AllIndicesAppend(group[..i], [group[i]]);
    assert AllIndices([group[i]]) == group[i].blockIndices;
  }

  method RenderLine(group: Group, page: int) returns (line: OcrLine)
    requires group != []
    ensures line == RenderGroup(group, page)
  {
    var byLeft := ByLeft(group);
    var text, indices, box := byLeft[0].text, byLeft[0].blockIndices, byLeft[0].box;
    assert byLeft[..1] == [byLeft[0]];
    for i := 1 to |byLeft|
      invariant text == LineText(byLeft[..i])
      invariant indices == AllIndices(byLeft[..i])
      invariant box == GroupHull(byLeft[..i])
    {
      RenderStep(byLeft, i);
      var gap := byLeft[i].box.x1 - byLeft[i - 1].box.x2;
      text := text + (if gap > 0.02 then " | " else " ") + byLeft[i].text;
      indices := indices + byLeft[i].blockIndices;
      box := Hull(box, byLeft[i].box);
    }
    assert byLeft[..|byLeft|] == byLeft;
    line := OcrLine(text, page, Sorting.StableSort(indices, NatLe), box);
  }

  lemma {:induction false} NextLine(groups: seq<Group>, page: int, g: nat)
    requires g < |groups| && forall h | 0 <= h < |groups| :: groups[h] != []
    ensures RenderGroups(groups[..g + 1], page) == RenderGroups(groups[..g], page) + [RenderGroup(groups[g], page)]
  {
    assert groups[..g + 1][..g] == groups[..g];
  }

  method RenderLines(groups: seq<Group>, page: int) returns (lines: seq<OcrLine>)
    requires forall g | 0 <= g < |groups| :: groups[g] != []
    ensures lines == RenderGroups(groups, page)
  {
    lines := [];
    for g := 0 to |groups|
      invariant lines == RenderGroups(groups[..g], page)
    {
      NextLine(groups, page, g);
      var line := RenderLine(groups[g], page);
      lines := lines + [line];
    }
    assert groups[..|groups|] == groups;
  }

  method BuildPage(blocks: seq<MergedBlock>, page: int) returns (lines: seq<OcrLine>)
    ensures lines == RenderGroups(PageGroups(blocks), page)
  {
    var groups := GroupLines(Sorting.StableSort(blocks, CenterLe), Tolerance(blocks));
    assert groups == PageGroups(blocks);
    lines := RenderLines(groups, page);
  }

  lemma {:induction false} NextPage(blocks: seq<MergedBlock>, pages: seq<int>, k: nat)
    requires k < |pages|
    ensures LinesOf(blocks, pages[..k + 1])
         == LinesOf(blocks, pages[..k]) + RenderGroups(PageGroups(Grouping.Bucket(blocks, PageOfBlock, pages[k])), pages[k])
  {
    assert pages[..k + 1][..k] == pages[..k];
  }

  method BuildLines(blocks: seq<MergedBlock>) returns (lines: seq<OcrLine>)
    ensures lines == LinesOf(blocks, Grouping.Keys(blocks, PageOfBlock))
  {
    var pages, byPage := Grouping.GroupBy(blocks, PageOfBlock);
    lines := [];
    for k := 0 to |pages|
      invariant lines == LinesOf(blocks, pages[..k])
    {
      NextPage(blocks, pages, k);
      var pageLines := BuildPage(byPage[pages[k]], pages[k]);
      lines := lines + pageLines;
    }
    assert pages[..|pages|] == pages;
  }

  // ----- conservation

  function LineIndices(lines: seq<OcrLine>): seq<nat> {
    if lines == [] then [] else LineIndices(lines[..|lines| - 1]) + lines[|lines| - 1].blockIndices
  }

  lemma {:induction false} LineIndicesAppend(a: seq<OcrLine>, b: seq<OcrLine>)
    ensures LineIndices(a + b) == LineIndices(a) + LineIndices(b)
  {
    if b == [] {
      assert a + b == a;
    } else {
      assert (a + b)[..|a + b| - 1] == a + b[..|b| - 1];
      LineIndicesAppend(a, b[..|b| - 1]);
    }
  }

  lemma {:induction false} AllIndicesRespectPermutation(s: seq<MergedBlock>, t: seq<MergedBlock>)
    requires multiset(s) == multiset(t)
    ensures multiset(AllIndices(s)) == multiset(AllIndices(t))
  {
    if s == [] {
      assert |multiset(t)| == 0;
    } else {
      var k := Sorting.MatchFirst(s, t);
      var a, b := t[..k], t[k + 1..];
      AllIndicesRespectPermutation(s[1..], a + b);
      AllIndicesAppend(a, b);
      AllIndicesAppend(a + [t[k]], b);
      AllIndicesAppend(a, [t[k]]);
      assert AllIndices([t[k]]) == t[k].blockIndices;
    }
  }

  lemma {:induction false} BoxOfBlock(group: Group, b: Box)
    ensures b in BlockBoxes(group) <==> exists m | m in group :: m.box == b
  {
    if b in BlockBoxes(group) {
      var i :| 0 <= i < |group| && BlockBoxes(group)[i] == b;
      assert group[i] in group;
    }
    if exists m | m in group :: m.box == b {
      var m :| m in group && m.box == b;
      var i :| 0 <= i < |group| && group[i] == m;
      assert BlockBoxes(group)[i] == b;
    }
  }

  lemma {:induction false} SameBlocksSameBoxes(s: Group, t: Group, b: Box)
    requires multiset(s) == multiset(t) && b in BlockBoxes(s)
    ensures b in BlockBoxes(t)
  {
    BoxOfBlock(s, b);
    BoxOfBlock(t, b);
    var m :| m in s && m.box == b;
    Sorting.SameElements(s, t, m);
  }

  lemma {:induction false} LineBoxIsHull(group: Group)
    requires group != []
    ensures IsHull(GroupHull(ByLeft(group)), BlockBoxes(group))
  {
    var byLeft := ByLeft(group);
    Sorting.StableSortPermutes(group, LeftLe);
    GroupHullIsHull(byLeft);
    forall b ensures b in BlockBoxes(byLeft) <==> b in BlockBoxes(group) {
      if b in BlockBoxes(byLeft) { SameBlocksSameBoxes(byLeft, group, b); }
      if b in BlockBoxes(group) { SameBlocksSameBoxes(group, byLeft, b); }
    }
    HullIgnoresOrder(GroupHull(byLeft), BlockBoxes(byLeft), BlockBoxes(group));
  }

  /** A line carries the indices of its blocks, in ascending order, and the hull of their boxes. */
  lemma {:induction false} LineCarriesItsBlocks(group: Group, page: int)
    requires group != []
    ensures var line := RenderGroup(group, page);
      && multiset(line.blockIndices) == multiset(AllIndices(group))
      && Sorting.Sorted(line.blockIndices, NatLe)
      && IsHull(line.box, BlockBoxes(group))
  {
    var byLeft := ByLeft(group);
    Sorting.StableSortPermutes(group, LeftLe);
    AllIndicesRespectPermutation(byLeft, group);
    Sorting.StableSortPermutes(AllIndices(byLeft), NatLe);
    Sorting.StableSortSorts(AllIndices(byLeft), NatLe);
    LineBoxIsHull(group);
  }

  lemma {:induction false} LastLine(groups: seq<Group>, page: int)
    requires groups != [] && forall g | 0 <= g < |groups| :: groups[g] != []
    ensures var n := |groups| - 1;
      && LineIndices(RenderGroups(groups, page)) == LineIndices(RenderGroups(groups[..n], page)) + RenderGroup(groups[n], page).blockIndices
      && AllIndices(Flatten(groups)) == AllIndices(Flatten(groups[..n])) + AllIndices(groups[n])
  {
    var n := |groups| - 1;
    AllIndicesAppend(Flatten(groups[..n]), groups[n]);
    var front, line := RenderGroups(groups[..n], page), RenderGroup(groups[n], page);
    assert (front + [line])[..|front|] == front;
  }

  lemma {:induction false} GroupsKeepIndices(groups: seq<Group>, page: int)
    requires forall g | 0 <= g < |groups| :: groups[g] != []
    ensures multiset(LineIndices(RenderGroups(groups, page))) == multiset(AllIndices(Flatten(groups)))
  {
    if groups == [] {
    } else {
      var n := |groups| - 1;
      GroupsKeepIndices(groups[..n], page);
      LineCarriesItsBlocks(groups[n], page);
      LastLine(groups, page);
      SumOfEquals(LineIndices(RenderGroups(groups[..n], page)), AllIndices(Flatten(groups[..n])),
                  RenderGroup(groups[n], page).blockIndices, AllIndices(groups[n]));
    }
  }

  lemma {:induction false} PageKeepsLineIndices(blocks: seq<MergedBlock>, page: int)
    ensures multiset(LineIndices(RenderGroups(PageGroups(blocks), page))) == multiset(AllIndices(blocks))
  {
    var sorted := Sorting.StableSort(blocks, CenterLe);
    Sorting.StableSortPermutes(blocks, CenterLe);
    Sorting.StableSortSorts(blocks, CenterLe);
    LinesAreBands(sorted, Tolerance(blocks));
    GroupsKeepIndices(PageGroups(blocks), page);
    AllIndicesRespectPermutation(sorted, blocks);
  }

  lemma {:induction false} LastBucket(blocks: seq<MergedBlock>, pages: seq<int>, page: int)
    ensures AllIndices(Grouping.Buckets(blocks, PageOfBlock, pages + [page]))
         == AllIndices(Grouping.Buckets(blocks, PageOfBlock, pages)) + AllIndices(Grouping.Bucket(blocks, PageOfBlock, page))
  {
    var bucket := Grouping.Bucket(blocks, PageOfBlock, page);
    Grouping.BucketsAppend(blocks, PageOfBlock, pages, [page]);
    assert Grouping.Buckets(blocks, PageOfBlock, [page]) == bucket + Grouping.Buckets(blocks, PageOfBlock, []);
    assert bucket + [] == bucket;
    AllIndicesAppend(Grouping.Buckets(blocks, PageOfBlock, pages), bucket);
  }

  lemma {:induction false} SumOfEquals(a: seq<nat>, b: seq<nat>, c: seq<nat>, d: seq<nat>)
    requires multiset(a) == multiset(b) && multiset(c) == multiset(d)
    ensures multiset(a + c) == multiset(b + d)
  {
  }

  lemma {:induction false} LinesKeepIndices(blocks: seq<MergedBlock>, pages: seq<int>)
    ensures multiset(LineIndices(LinesOf(blocks, pages))) == multiset(AllIndices(Grouping.Buckets(blocks, PageOfBlock, pages)))
  {
    if pages == [] {
    } else {
      var n := |pages| - 1;
      var front, page := pages[..n], pages[n];
      assert pages == front + [page];
      var lines := RenderGroups(PageGroups(Grouping.Bucket(blocks, PageOfBlock, page)), page);
      LinesKeepIndices(blocks, front);
      PageKeepsLineIndices(Grouping.Bucket(blocks, PageOfBlock, page), page);
      LineIndicesAppend(LinesOf(blocks, front), lines);
      LastBucket(blocks, front, page);
      SumOfEquals(LineIndices(LinesOf(blocks, front)), AllIndices(Grouping.Buckets(blocks, PageOfBlock, front)),
                  LineIndices(lines), AllIndices(Grouping.Bucket(blocks, PageOfBlock, page)));
    }
  }

  /** Line building loses and duplicates no block index. */
  lemma {:induction false} LinesPartitionTheBlocks(blocks: seq<MergedBlock>)
    ensures multiset(LineIndices(LinesOf(blocks, Grouping.Keys(blocks, PageOfBlock)))) == multiset(AllIndices(blocks))
  {
    var pages := Grouping.Keys(blocks, PageOfBlock);
    LinesKeepIndices(blocks, pages);
    Grouping.BucketsPermute(blocks, PageOfBlock);
    AllIndicesRespectPermutation(Grouping.Buckets(blocks, PageOfBlock, pages), blocks);
  }

  /** The whole post-processing: every OCR block that has a box is on exactly one line. */
  method PostProcess(blocks: seq<OcrBlock>, order: seq<Entry> -> seq<Entry>, fix: string -> string)
    returns (merged: seq<MergedBlock>, lines: seq<OcrLine>)
    requires Permutes(order)
    ensures forall x: nat ::
      multiset(LineIndices(lines))[x] == (if x < |blocks| && blocks[x].bbox.Some? then 1 else 0)
    ensures FixedPoint(merged)
    ensures lines == LinesOf(merged, Grouping.Keys(merged, PageOfBlock))
  {
    ghost var slots;
    merged, slots := MergeBlocks(blocks, order, fix);
    lines := BuildLines(merged);
    LinesPartitionTheBlocks(merged);
  }
}
