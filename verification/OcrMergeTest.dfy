/** When two OCR boxes merge, told by points of the page (ocrPostProcessor.ts): they share a row and nearly touch. */
module OcrMergeTest {
  import opened Geometry
  import opened OcrMerge

  /** The rows from `top` to `bottom` lie within the vertical extent of `box`. */
  predicate SpansRows(box: Box, top: real, bottom: real) {
    box.y1 <= top && bottom <= box.y2
  }

  /** Both boxes have common rows that make up more than 0.7 of the height of one of them. */
  ghost predicate ShareRows(a: Box, b: Box) {
    exists top: real, bottom: real | top < bottom && SpansRows(a, top, bottom) && SpansRows(b, top, bottom) ::
      bottom - top > 0.7 * (a.y2 - a.y1) || bottom - top > 0.7 * (b.y2 - b.y1)
  }

  predicate InColumns(box: Box, x: real) {
    box.x1 <= x <= box.x2
  }

  /** A point of one and a point of the other are less than 0.02 apart, sideways. */
  ghost predicate NearlyTouch(a: Box, b: Box) {
    exists x: real, z: real | InColumns(a, x) && InColumns(b, z) :: -0.02 < x - z < 0.02
  }

  lemma {:induction false} RatioExceeds(x: real, d: real)
    requires d > 0.0
    ensures x / d <= 0.7 <==> x <= 0.7 * d
  {
    var q := x / d;
    assert x == q * d;
    if q <= 0.7 {
      assert (0.7 - q) * d >= 0.0;
    } else {
      assert (q - 0.7) * d > 0.0;
    }
  }

  lemma {:induction false} RowsIff(a: Box, b: Box)
    ensures var shorter, overlap := Min(a.y2 - a.y1, b.y2 - b.y1), Min(a.y2, b.y2) - Max(a.y1, b.y1);
      ShareRows(a, b) <==> shorter > 0.0 && overlap > 0.0 && overlap > 0.7 * shorter
  {
    var top, bottom := Max(a.y1, b.y1), Min(a.y2, b.y2);
    if bottom - top > 0.0 && bottom - top > 0.7 * Min(a.y2 - a.y1, b.y2 - b.y1) {
      assert top < bottom && SpansRows(a, top, bottom) && SpansRows(b, top, bottom);
    }
  }

  lemma {:induction false} ColumnsIff(a: Box, b: Box)
    requires a.x1 <= a.x2 && b.x1 <= b.x2
    ensures NearlyTouch(a, b) <==> Max(a.x1, b.x1) - Min(a.x2, b.x2) < 0.02
  {
    var left, right := Max(a.x1, b.x1), Min(a.x2, b.x2);
    if left - right < 0.02 {
      var x := if left <= right then left else if a.x1 == left then a.x1 else a.x2;
      var z := if left <= right then left else if a.x1 == left then b.x2 else b.x1;
      assert InColumns(a, x) && InColumns(b, z) && -0.02 < x - z < 0.02;
    }
  }

  /** Two boxes merge if and only if they share enough rows and nearly touch or overlap sideways. */
  lemma {:induction false} MergesIff(a: Box, b: Box)
    requires a.x1 <= a.x2 && b.x1 <= b.x2
    ensures ShouldMerge(a, b) <==> ShareRows(a, b) && NearlyTouch(a, b)
  {
    RowsIff(a, b);
    ColumnsIff(a, b);
    var shorter := Min(a.y2 - a.y1, b.y2 - b.y1);
    if shorter > 0.0 {
      RatioExceeds(Min(a.y2, b.y2) - Max(a.y1, b.y1), shorter);
    }
  }
}
