/** Axis-aligned boxes in normalized page coordinates, over exact reals. */
module Geometry {

  /** `x1, y1` is the top-left corner and `x2, y2` the bottom-right one, as in `bboxNormalized`. */
  datatype Box = Box(x1: real, y1: real, x2: real, y2: real)

  function Min(a: real, b: real): real {
    if a <= b then a else b
  }

  function Max(a: real, b: real): real {
    if a <= b then b else a
  }

  function Hull(a: Box, b: Box): Box {
    Box(Min(a.x1, b.x1), Min(a.y1, b.y1), Max(a.x2, b.x2), Max(a.y2, b.y2))
  }

  // The four sides, each oriented so that the hull takes the least value.
  function Left(b: Box): real { b.x1 }
  function Top(b: Box): real { b.y1 }
  function FromRight(b: Box): real { -b.x2 }
  function FromBottom(b: Box): real { -b.y2 }

  ghost predicate Least(v: real, side: Box -> real, boxes: seq<Box>) {
    && (forall k | 0 <= k < |boxes| :: v <= side(boxes[k]))
    && (exists k | 0 <= k < |boxes| :: v == side(boxes[k]))
  }

  /** `hull` is the least box that covers all of `boxes`: every side bounds theirs and is attained. */
  ghost predicate IsHull(hull: Box, boxes: seq<Box>) {
    && Least(Left(hull), Left, boxes)
    && Least(Top(hull), Top, boxes)
    && Least(FromRight(hull), FromRight, boxes)
    && Least(FromBottom(hull), FromBottom, boxes)
  }

  lemma {:induction false} HullOfSingle(b: Box)
    ensures IsHull(b, [b])
  {
    assert [b][0] == b;
  }

  lemma {:induction false} LeastOfConcat(v: real, w: real, side: Box -> real, s: seq<Box>, t: seq<Box>)
    requires Least(v, side, s) && Least(w, side, t)
    ensures Least(Min(v, w), side, s + t)
  {
    var i :| 0 <= i < |s| && v == side(s[i]);
    var j :| 0 <= j < |t| && w == side(t[j]);
    assert (s + t)[i] == s[i] && (s + t)[|s| + j] == t[j];
  }

  lemma {:induction false} HullOfConcat(a: Box, b: Box, s: seq<Box>, t: seq<Box>)
    requires IsHull(a, s) && IsHull(b, t)
    ensures IsHull(Hull(a, b), s + t)
  {
    LeastOfConcat(Left(a), Left(b), Left, s, t);
    LeastOfConcat(Top(a), Top(b), Top, s, t);
    LeastOfConcat(FromRight(a), FromRight(b), FromRight, s, t);
    LeastOfConcat(FromBottom(a), FromBottom(b), FromBottom, s, t);
  }

  /** The hull does not depend on the order in which boxes were joined. */
  lemma {:induction false} HullIsUnique(a: Box, b: Box, boxes: seq<Box>)
    requires IsHull(a, boxes) && IsHull(b, boxes)
    ensures a == b
  {
    forall side, v, w | Least(v, side, boxes) && Least(w, side, boxes) ensures v == w {
      var i :| 0 <= i < |boxes| && v == side(boxes[i]);
      var j :| 0 <= j < |boxes| && w == side(boxes[j]);
    }
    assert Left(a) == Left(b) && Top(a) == Top(b);
    assert FromRight(a) == FromRight(b) && FromBottom(a) == FromBottom(b);
  }

  lemma {:induction false} LeastIgnoresOrder(v: real, side: Box -> real, s: seq<Box>, t: seq<Box>)
    requires Least(v, side, s) && forall b :: b in s <==> b in t
    ensures Least(v, side, t)
  {
    forall k | 0 <= k < |t| ensures v <= side(t[k]) {
      assert t[k] in s;
    }
    var k :| 0 <= k < |s| && v == side(s[k]);
    assert s[k] in t;
  }

  /** A hull depends on which boxes there are, not on their order. */
  lemma {:induction false} HullIgnoresOrder(hull: Box, s: seq<Box>, t: seq<Box>)
    requires IsHull(hull, s) && forall b :: b in s <==> b in t
    ensures IsHull(hull, t)
  {
    LeastIgnoresOrder(Left(hull), Left, s, t);
    LeastIgnoresOrder(Top(hull), Top, s, t);
    LeastIgnoresOrder(FromRight(hull), FromRight, s, t);
    LeastIgnoresOrder(FromBottom(hull), FromBottom, s, t);
  }
}
