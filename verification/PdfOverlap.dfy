/** What the overlap score of two boxes says about their areas (pdf_utils.py). */
module PdfOverlap {
  import opened Wrappers
  import opened Geometry
  import opened PdfReconcile

  /** What two boxes have in common; a box only where both sides are positive. */
  function Common(a: Box, b: Box): Box {
    Box(Max(a.x1, b.x1), Max(a.y1, b.y1), Min(a.x2, b.x2), Min(a.y2, b.y2))
  }

  /** The points of a box, its border included. */
  predicate Covers(box: Box, x: real, y: real) {
    box.x1 <= x <= box.x2 && box.y1 <= y <= box.y2
  }

  /** The common box has exactly the points of both. */
  lemma {:induction false} CommonIsBoth(a: Box, b: Box, x: real, y: real)
    ensures Covers(Common(a, b), x, y) <==> Covers(a, x, y) && Covers(b, x, y)
  {
  }

  function Width(box: Box): real {
    box.x2 - box.x1
  }

  function Height(box: Box): real {
    box.y2 - box.y1
  }

  lemma {:induction false} QuotientAtLeast(x: real, d: real, r: real)
    requires d > 0.0
    ensures Quotient(x, d) >= r <==> x >= Product(r, d)
  {
    var q := x / d;
    assert x == q * d;
    if q >= r {
      assert (q - r) * d >= 0.0;
    } else {
      assert (r - q) * d > 0.0;
    }
  }

  lemma {:induction false} ProductGrows(r: real, x: real, y: real)
    requires r > 0.0
    ensures Product(r, x) <= Product(r, y) <==> x <= y
  {
    if x <= y {
      assert r * (y - x) >= 0.0;
    } else {
      assert r * (x - y) > 0.0;
    }
  }

  /** The larger area is one of the two or the floor, and is none of them too small. */
  lemma {:induction false} LargerAreaIsLargest(a: Box, b: Box)
    ensures LargerArea(a, b) in {0.000001, Area(a), Area(b)}
    ensures LargerArea(a, b) >= 0.000001 && LargerArea(a, b) >= Area(a) && LargerArea(a, b) >= Area(b)
  {
  }

  lemma {:induction false} ShareOfLargest(x: real, r: real, a: Box, b: Box)
    requires r > 0.0
    ensures x >= Product(r, LargerArea(a, b)) <==>
      x >= Product(r, 0.000001) && x >= Product(r, Area(a)) && x >= Product(r, Area(b))
  {
    LargerAreaIsLargest(a, b);
    ProductGrows(r, 0.000001, LargerArea(a, b));
    ProductGrows(r, Area(a), LargerArea(a, b));
    ProductGrows(r, Area(b), LargerArea(a, b));
  }

  /** Areas are width times height. */
  lemma {:induction false} AreaIsWidthTimesHeight(box: Box)
    ensures Area(box) == Product(Width(box), Height(box))
  {
  }

  /**
   The score reaches `r` if and only if the boxes overlap and their common area is at least `r` times each of
   their areas, and `r` times a millionth of the page.
   */
  lemma {:induction false} ScoreReachesIff(a: Box, b: Box, r: real)
    requires r > 0.0
    ensures var common := Common(a, b);
      OverlapScore(a, b) >= r <==>
        && Width(common) > 0.0 && Height(common) > 0.0
        && Product(Width(common), Height(common)) >= Product(r, Area(a))
        && Product(Width(common), Height(common)) >= Product(r, Area(b))
        && Product(Width(common), Height(common)) >= Product(r, 0.000001)
  {
    var common := Common(a, b);
    var shared := Product(Width(common), Height(common));
    assert SharedWidth(a, b) == Width(common) && SharedHeight(a, b) == Height(common);
    if Width(common) > 0.0 && Height(common) > 0.0 {
      QuotientAtLeast(shared, LargerArea(a, b), r);
      ShareOfLargest(shared, r, a, b);
    }
  }

  lemma {:induction false} QuotientOfSame(x: real)
    requires x > 0.0
    ensures Quotient(x, x) == 1.0
  {
  }

  /** A box of at least a millionth of the page overlaps itself fully. */
  lemma {:induction false} SameBoxScoresOne(b: Box)
    requires Proper(b) && Area(b) >= 0.000001
    ensures OverlapScore(b, b) == 1.0
  {
    assert SharedWidth(b, b) == b.x2 - b.x1 && SharedHeight(b, b) == b.y2 - b.y1;
    LargerAreaIsLargest(b, b);
    QuotientOfSame(Area(b));
  }

  /** A block without a page, or with one that is not positive, is on page 1; any other is on its own. */
  lemma {:induction false} PageOrFirst(page: Option<int>)
    ensures NormalizePage(page) >= 1
    ensures page.Some? && page.value >= 1 ==> NormalizePage(page) == page.value
    ensures page == None || page.value < 1 ==> NormalizePage(page) == 1
  {
  }

  /** Two readings of the same box of at least a millionth of a page belong together. */
  lemma {:induction false} SameBoxIsPartner(block: PageBlock, pdf: PageBlock)
    requires block.page == pdf.page && block.bbox == pdf.bbox && NormalizeBbox(pdf.bbox).Some?
    requires Area(NormalizeBbox(pdf.bbox).value) >= 0.000001
    ensures Partners(block, pdf)
  {
    SameBoxScoresOne(NormalizeBbox(pdf.bbox).value);
  }

  /** A box twice as high as another around it has too little in common with it. */
  lemma {:induction false} HalfIsNotEnough(a: Box, b: Box)
    requires Proper(a) && a.x1 == b.x1 && a.x2 == b.x2 && a.y1 == b.y1 && Height(b) == 2.0 * Height(a)
    ensures OverlapScore(a, b) < 0.55
  {
    ScoreReachesIff(a, b, 0.55);
    var w, h := Width(a), Height(a);
    assert Product(w, h) > 0.0 by { ProductIsPositive(w, h); }
    assert Product(w, 2.0 * h) == 2.0 * Product(w, h);
    assert Product(0.55, 2.0 * Product(w, h)) == 1.1 * Product(w, h);
    assert Common(a, b) == a;
  }
}
