/**
 Reconciliation of OCR blocks with the text layer of the same PDF (pdf_utils.py): each OCR block
 greedily takes the text of the unused PDF block that overlaps it best, if the overlap reaches 0.55.
 */
module PdfReconcile {
  import opened Wrappers
  import opened Geometry

  /** Coordinates as received, in no particular order. */
  datatype RawBox = RawBox(a: real, b: real, c: real, d: real)

  /** `page` is `None` when the field is missing or does not convert to an integer. */
  datatype PageBlock = PageBlock(text: string, page: Option<int>, bbox: Option<RawBox>)

  function NormalizeBbox(raw: Option<RawBox>): (r: Option<Box>)
    ensures r.Some? ==> Proper(r.value)
  {
    match raw
    case None => None
    case Some(q) =>
      var box := Box(Min(q.a, q.c), Min(q.b, q.d), Max(q.a, q.c), Max(q.b, q.d));
      if box.x1 == box.x2 || box.y1 == box.y2 then None else Some(box)
  }

  /** A box is the hull of its two corners, whichever way round they come, and there is none when it is flat. */
  lemma {:induction false} NormalizedIsHullOfCorners(q: RawBox)
    ensures NormalizeBbox(Some(q)).None? <==> q.a == q.c || q.b == q.d
    ensures NormalizeBbox(Some(q)).Some? ==>
      IsHull(NormalizeBbox(Some(q)).value, [Box(q.a, q.b, q.a, q.b), Box(q.c, q.d, q.c, q.d)])
  {
    var first, second := Box(q.a, q.b, q.a, q.b), Box(q.c, q.d, q.c, q.d);
    HullOfSingle(first);
    HullOfSingle(second);
    HullOfConcat(first, second, [first], [second]);
    assert [first] + [second] == [first, second];
    assert Hull(first, second) == Box(Min(q.a, q.c), Min(q.b, q.d), Max(q.a, q.c), Max(q.b, q.d));
  }

  function NormalizePage(page: Option<int>): int {
    if page.Some? && page.value > 0 then page.value else 1
  }

  predicate Proper(b: Box) {
    b.x1 < b.x2 && b.y1 < b.y2
  }

  function Area(b: Box): real {
    Product(b.x2 - b.x1, b.y2 - b.y1)
  }

  /** The length two intervals share; not positive when they do not overlap. */
  function Span(a1: real, a2: real, b1: real, b2: real): real {
    Min(a2, b2) - Max(a1, b1)
  }

  function SharedWidth(a: Box, b: Box): real {
    Span(a.x1, a.x2, b.x1, b.x2)
  }

  function SharedHeight(a: Box, b: Box): real {
    Span(a.y1, a.y2, b.y1, b.y2)
  }

  function Product(x: real, y: real): real {
    x * y
  }

  function Quotient(x: real, y: real): real
    requires y > 0.0
  {
    x / y
  }

  function LargerArea(a: Box, b: Box): (area: real)
    ensures area > 0.0 && area >= Area(a) && area >= Area(b)
  {
    Max(Max(0.000001, Area(a)), Max(0.000001, Area(b)))
  }

  function OverlapScore(left: Box, right: Box): real {
    if SharedWidth(left, right) <= 0.0 || SharedHeight(left, right) <= 0.0 then 0.0
    else Quotient(Product(SharedWidth(left, right), SharedHeight(left, right)), LargerArea(left, right))
  }

  // ----- the greedy choice

  /** The overlap with `pdf`, or 0 when the two cannot be compared. */
  function Score(box: Box, page: int, pdf: PageBlock): real {
    if NormalizePage(pdf.page) != page || NormalizeBbox(pdf.bbox).None? then 0.0
    else OverlapScore(box, NormalizeBbox(pdf.bbox).value)
  }

  /** The first unused PDF block among the first `n` with the highest positive score, and that score. */
  function Best(box: Box, page: int, pdfs: seq<PageBlock>, used: set<int>, n: nat): (int, real)
    requires n <= |pdfs|
  {
    if n == 0 then (-1, 0.0)
    else
      var (index, score) := Best(box, page, pdfs, used, n - 1);
      if n - 1 !in used && Score(box, page, pdfs[n - 1]) > score
      then (n - 1, Score(box, page, pdfs[n - 1])) else (index, score)
  }

  lemma {:induction false} BestIsArgmax(box: Box, page: int, pdfs: seq<PageBlock>, used: set<int>, n: nat)
    requires n <= |pdfs|
    ensures var (index, score) := Best(box, page, pdfs, used, n);
      && -1 <= index < n && score >= 0.0
      && (index < 0 ==> score == 0.0)
      && (index >= 0 ==> index !in used && score == Score(box, page, pdfs[index]) > 0.0)
      && (forall p | 0 <= p < n && p !in used :: Score(box, page, pdfs[p]) <= score)
  {
    if n > 0 {
      BestIsArgmax(box, page, pdfs, used, n - 1);
    }
  }

  /** The PDF block that `block` takes its text from, or -1. */
  function Choice(block: PageBlock, pdfs: seq<PageBlock>, used: set<int>, strip: string -> string): (m: int)
    ensures m == -1 || (0 <= m < |pdfs| && m !in used)
  {
    match NormalizeBbox(block.bbox)
    case None => -1
    case Some(box) =>
      BestIsArgmax(box, NormalizePage(block.page), pdfs, used, |pdfs|);
      var (index, score) := Best(box, NormalizePage(block.page), pdfs, used, |pdfs|);
      if index < 0 || score < 0.55 || strip(pdfs[index].text) == "" then -1 else index
  }

  function Taken(matches: seq<int>): set<int> {
    set m | m in matches && m >= 0
  }

  function Matches(ocr: seq<PageBlock>, pdfs: seq<PageBlock>, strip: string -> string): (matches: seq<int>)
    ensures |matches| == |ocr|
  {
    if ocr == [] then []
    else
      var before := Matches(ocr[..|ocr| - 1], pdfs, strip);
      before + [Choice(ocr[|ocr| - 1], pdfs, Taken(before), strip)]
  }

  function Corrected(block: PageBlock, m: int, pdfs: seq<PageBlock>, strip: string -> string): PageBlock {
    if 0 <= m < |pdfs| then block.(text := strip(pdfs[m].text)) else block
  }

  method Reconcile(ocr: seq<PageBlock>, pdfs: seq<PageBlock>, strip: string -> string)
    returns (corrected: seq<PageBlock>)
    ensures |corrected| == |ocr|
    ensures forall i | 0 <= i < |ocr| :: corrected[i] == Corrected(ocr[i], Matches(ocr, pdfs, strip)[i], pdfs, strip)
  {
    if ocr == [] || pdfs == [] {
      NothingToMatch(ocr, pdfs, strip);
      return ocr;
    }
    corrected := ocr;
    var used: set<int> := {};
    ghost var matches: seq<int> := [];
    for index := 0 to |ocr|
      invariant matches == Matches(ocr[..index], pdfs, strip)
      invariant used == Taken(matches)
      invariant CorrectedUpTo(corrected, ocr, matches, pdfs, strip)
    {
      NextMatch(ocr, pdfs, strip, index);
      var block := corrected[index];
      var partner := FindMatch(block, pdfs, used, strip);
      NextCorrected(corrected, ocr, matches, pdfs, strip, partner);
      matches := matches + [partner];
      if partner >= 0 {
        corrected := corrected[index := block.(text := strip(pdfs[partner].text))];
        used := used + {partner};
      }
    }
    assert ocr[..|ocr|] == ocr;
  }

  /** The blocks that have been looked at are corrected, the others as they were. */
  ghost predicate CorrectedUpTo(corrected: seq<PageBlock>, ocr: seq<PageBlock>, matches: seq<int>, pdfs: seq<PageBlock>, strip: string -> string) {
    && |matches| <= |ocr| == |corrected|
    && (forall i | 0 <= i < |matches| :: corrected[i] == Corrected(ocr[i], matches[i], pdfs, strip))
    && (forall i | |matches| <= i < |ocr| :: corrected[i] == ocr[i])
  }

  lemma {:induction false} NextCorrected(corrected: seq<PageBlock>, ocr: seq<PageBlock>, matches: seq<int>, pdfs: seq<PageBlock>, strip: string -> string, m: int)
    requires CorrectedUpTo(corrected, ocr, matches, pdfs, strip) && |matches| < |ocr| && -1 <= m < |pdfs|
    ensures var index := |matches|;
      CorrectedUpTo(if m >= 0 then corrected[index := corrected[index].(text := strip(pdfs[m].text))] else corrected,
                    ocr, matches + [m], pdfs, strip)
  {
  }

  lemma {:induction false} NextMatch(ocr: seq<PageBlock>, pdfs: seq<PageBlock>, strip: string -> string, index: nat)
    requires index < |ocr|
    ensures var before := Matches(ocr[..index], pdfs, strip);
      Matches(ocr[..index + 1], pdfs, strip) == before + [Choice(ocr[index], pdfs, Taken(before), strip)]
  {
    assert ocr[..index + 1][..index] == ocr[..index];
  }

  /** The PDF block whose text `block` takes, or -1. */
  method FindMatch(block: PageBlock, pdfs: seq<PageBlock>, used: set<int>, strip: string -> string) returns (index: int)
    ensures index == Choice(block, pdfs, used, strip)
  {
    var bbox := NormalizeBbox(block.bbox);
    if bbox.None? {
      return -1;
    }
    var bestIndex, bestScore := FindBest(bbox.value, NormalizePage(block.page), pdfs, used);
    if bestIndex < 0 || bestScore < 0.55 {
      return -1;
    }
    if strip(pdfs[bestIndex].text) == "" {
      return -1;
    }
    index := bestIndex;
  }

  method FindBest(box: Box, page: int, pdfs: seq<PageBlock>, used: set<int>) returns (index: int, score: real)
    ensures (index, score) == Best(box, page, pdfs, used, |pdfs|)
    ensures -1 <= index < |pdfs|
  {
    index, score := -1, 0.0;
    for pdfIndex := 0 to |pdfs|
      invariant (index, score) == Best(box, page, pdfs, used, pdfIndex)
      invariant score >= 0.0 && -1 <= index < pdfIndex
    {
      if pdfIndex in used || NormalizePage(pdfs[pdfIndex].page) != page {
        continue;
      }
      var pdfBox := NormalizeBbox(pdfs[pdfIndex].bbox);
      if pdfBox.None? {
        continue;
      }
      var s := OverlapScore(box, pdfBox.value);
      if s > score {
        index, score := pdfIndex, s;
      }
    }
  }

  lemma {:induction false} NothingToMatch(ocr: seq<PageBlock>, pdfs: seq<PageBlock>, strip: string -> string)
    requires ocr == [] || pdfs == []
    ensures forall m | m in Matches(ocr, pdfs, strip) :: m == -1
  {
    if ocr == [] {
    } else {
      NothingToMatch(ocr[..|ocr| - 1], pdfs, strip);
    }
  }

  lemma {:induction false} ChoiceIsPartner(block: PageBlock, pdfs: seq<PageBlock>, used: set<int>, strip: string -> string)
    ensures var m := Choice(block, pdfs, used, strip);
      m >= 0 ==> m < |pdfs| && m !in used && Partners(block, pdfs[m]) && strip(pdfs[m].text) != ""
  {
    if NormalizeBbox(block.bbox).Some? {
      BestIsArgmax(NormalizeBbox(block.bbox).value, NormalizePage(block.page), pdfs, used, |pdfs|);
    }
  }

  /** Greedy matching never uses a PDF block twice, and only ever matches above the threshold. */
  lemma {:induction false} MatchesAreInjective(ocr: seq<PageBlock>, pdfs: seq<PageBlock>, strip: string -> string)
    ensures var matches := Matches(ocr, pdfs, strip);
      && (forall i, j | 0 <= i < j < |ocr| && matches[i] >= 0 :: matches[i] != matches[j])
      && (forall i | 0 <= i < |ocr| && matches[i] >= 0 ::
            matches[i] < |pdfs| && Partners(ocr[i], pdfs[matches[i]]) && strip(pdfs[matches[i]].text) != "")
  {
    if ocr == [] {
    } else {
      var front, last := ocr[..|ocr| - 1], ocr[|ocr| - 1];
      MatchesAreInjective(front, pdfs, strip);
      ChoiceIsPartner(last, pdfs, Taken(Matches(front, pdfs, strip)), strip);
    }
  }

  // ----- exactness on non-overlapping boxes

  /** On the same page with an overlap of at least 0.55. */
  predicate Partners(block: PageBlock, pdf: PageBlock) {
    && NormalizeBbox(block.bbox).Some? && NormalizeBbox(pdf.bbox).Some?
    && NormalizePage(block.page) == NormalizePage(pdf.page)
    && OverlapScore(NormalizeBbox(block.bbox).value, NormalizeBbox(pdf.bbox).value) >= 0.55
  }

  predicate Separate(a: Box, b: Box) {
    a.x2 <= b.x1 || b.x2 <= a.x1 || a.y2 <= b.y1 || b.y2 <= a.y1
  }

  /** Boxes of one page do not overlap. */
  ghost predicate NonOverlapping(blocks: seq<PageBlock>) {
    forall i, j | 0 <= i < j < |blocks| && NormalizePage(blocks[i].page) == NormalizePage(blocks[j].page)
      && NormalizeBbox(blocks[i].bbox).Some? && NormalizeBbox(blocks[j].bbox).Some? ::
      Separate(NormalizeBbox(blocks[i].bbox).value, NormalizeBbox(blocks[j].bbox).value)
  }

  lemma {:induction false} ProductIsMonotone(a: real, b: real, c: real, d: real)
    requires 0.0 <= a <= c && 0.0 <= b <= d
    ensures a * b <= c * d
  {
    assert a * b <= c * b;
    assert c * b <= c * d;
  }

  /** Two strips side by side inside a `w` by `h` rectangle have at most its area. */
  lemma {:induction false} SideBySide(w1: real, h1: real, w2: real, h2: real, w: real, h: real)
    requires 0.0 <= w1 && 0.0 <= w2 && w1 + w2 <= w && 0.0 <= h1 <= h && 0.0 <= h2 <= h
    ensures w1 * h1 + w2 * h2 <= w * h
  {
    ProductIsMonotone(w1, h1, w1, h);
    ProductIsMonotone(w2, h2, w2, h);
    ProductIsMonotone(w1 + w2, h, w, h);
    assert (w1 + w2) * h == w1 * h + w2 * h;
  }

  lemma {:induction false} RatioBound(x: real, d: real, r: real)
    requires d > 0.0 && Quotient(x, d) >= r
    ensures x >= Product(r, d)
  {
    var q := x / d;
    assert x == q * d;
    assert (q - r) * d >= 0.0;
  }

  /** A score of at least 0.55 means an overlap of at least 0.55 of the first box. */
  lemma {:induction false} ScoreBoundsOverlap(a: Box, b: Box)
    requires OverlapScore(a, b) >= 0.55
    ensures SharedWidth(a, b) > 0.0 && SharedHeight(a, b) > 0.0
    ensures Product(SharedWidth(a, b), SharedHeight(a, b)) >= 0.55 * Area(a)
  {
    RatioBound(Product(SharedWidth(a, b), SharedHeight(a, b)), LargerArea(a, b), 0.55);
    assert Product(0.55, LargerArea(a, b)) == 0.55 * LargerArea(a, b);
  }

  /** Two rectangles that each fill 0.55 of a `w` by `h` one cannot stand side by side in it. */
  lemma {:induction false} TooWideTogether(w1: real, h1: real, w2: real, h2: real, w: real, h: real)
    requires 0.0 <= w1 && 0.0 <= w2 && 0.0 <= h1 <= h && 0.0 <= h2 <= h && w * h > 0.0
    requires w1 * h1 >= 0.55 * (w * h) && w2 * h2 >= 0.55 * (w * h)
    ensures w1 + w2 > w
  {
    if w1 + w2 <= w {
      SideBySide(w1, h1, w2, h2, w, h);
    }
  }

  lemma {:induction false} ProductIsPositive(a: real, b: real)
    requires a > 0.0 && b > 0.0
    ensures a * b > 0.0
  {
  }

  lemma {:induction false} NeitherWayTogether(w1: real, h1: real, w2: real, h2: real, w: real, h: real)
    requires 0.0 < w1 <= w && 0.0 < w2 <= w && 0.0 < h1 <= h && 0.0 < h2 <= h
    requires Product(w1, h1) >= 0.55 * Product(w, h) && Product(w2, h2) >= 0.55 * Product(w, h)
    ensures w1 + w2 > w && h1 + h2 > h
  {
    ProductIsPositive(w, h);
    TooWideTogether(w1, h1, w2, h2, w, h);
    assert w1 * h1 == h1 * w1 && w2 * h2 == h2 * w2 && w * h == h * w;
    TooWideTogether(h1, w1, h2, w2, h, w);
  }

  lemma {:induction false} SpansMeet(o1: real, o2: real, p1: real, p2: real, q1: real, q2: real)
    requires Span(o1, o2, p1, p2) + Span(o1, o2, q1, q2) > o2 - o1
    ensures p2 > q1 && q2 > p1
  {
  }

  /** Two separate boxes cannot each overlap 0.55 of a third. */
  lemma {:induction false} SeparateBoxesShareNoPartner(o: Box, p: Box, q: Box)
    requires Proper(o) && OverlapScore(o, p) >= 0.55 && OverlapScore(o, q) >= 0.55
    ensures !Separate(p, q)
  {
    ScoreBoundsOverlap(o, p);
    ScoreBoundsOverlap(o, q);
    NeitherWayTogether(SharedWidth(o, p), SharedHeight(o, p), SharedWidth(o, q), SharedHeight(o, q), o.x2 - o.x1, o.y2 - o.y1);
    SpansMeet(o.x1, o.x2, p.x1, p.x2, q.x1, q.x2);
    SpansMeet(o.y1, o.y2, p.y1, p.y2, q.y1, q.y2);
  }

  lemma {:induction false} OverlapScoreIsSymmetric(a: Box, b: Box)
    ensures OverlapScore(a, b) == OverlapScore(b, a)
  {
    assert SharedWidth(a, b) == SharedWidth(b, a) && SharedHeight(a, b) == SharedHeight(b, a);
    assert LargerArea(a, b) == LargerArea(b, a);
  }

  /** On non-overlapping boxes the partner relation is a partial bijection. */
  lemma {:induction false} PartnersAreUnique(blocks: seq<PageBlock>, i: nat, j: nat, other: PageBlock)
    requires NonOverlapping(blocks) && i < |blocks| && j < |blocks|
    requires (Partners(other, blocks[i]) && Partners(other, blocks[j])) || (Partners(blocks[i], other) && Partners(blocks[j], other))
    ensures i == j
  {
    var o, p, q := NormalizeBbox(other.bbox).value, NormalizeBbox(blocks[i].bbox).value, NormalizeBbox(blocks[j].bbox).value;
    OverlapScoreIsSymmetric(o, p);
    OverlapScoreIsSymmetric(o, q);
    SeparateBoxesShareNoPartner(o, p, q);
  }
}
