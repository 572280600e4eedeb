/** What a merged block is does not depend on the order in which its members were merged (ocrPostProcessor.ts). */
module OcrMergeOrder {
  import opened Geometry
  import opened OcrMerge
  import Sorting

  lemma {:induction false} BoxOfMember(members: seq<Entry>, b: Box)
    ensures b in Boxes(members) <==> exists m | m in members :: m.box == b
  {
    if b in Boxes(members) {
      var i :| 0 <= i < |members| && Boxes(members)[i] == b;
      assert members[i] in members;
    }
    if exists m | m in members :: m.box == b {
      var m :| m in members && m.box == b;
      var i :| 0 <= i < |members| && members[i] == m;
      assert Boxes(members)[i] == b;
    }
  }

  lemma {:induction false} SameMembersSameBoxes(s: seq<Entry>, t: seq<Entry>, b: Box)
    requires multiset(s) == multiset(t) && b in Boxes(s)
    ensures b in Boxes(t)
  {
    BoxOfMember(s, b);
    BoxOfMember(t, b);
    var m :| m in s && m.box == b;
    Sorting.SameElements(s, t, m);
  }

  lemma {:induction false} NatOrder()
    ensures Sorting.TotalPreorder(NatLe) && forall x, y | NatLe(x, y) && NatLe(y, x) :: x == y
  {
  }

  lemma {:induction false} SameMembersSameBlock(a: MergedBlock, b: MergedBlock, s: seq<Entry>, t: seq<Entry>)
    requires Carries(a, s) && Carries(b, t) && multiset(s) == multiset(t)
    ensures a.blockIndices == b.blockIndices && a.box == b.box
  {
    IndicesRespectPermutation(s, t);
    NatOrder();
    Sorting.SortedIsUnique(a.blockIndices, b.blockIndices, NatLe);
    forall x ensures x in Boxes(s) <==> x in Boxes(t) {
      if x in Boxes(s) { SameMembersSameBoxes(s, t, x); }
      if x in Boxes(t) { SameMembersSameBoxes(t, s, x); }
    }
    HullIgnoresOrder(b.box, Boxes(t), Boxes(s));
    HullIsUnique(a.box, b.box, Boxes(s));
  }

  /** Two ways to merge the same members give the same indices and the same box. */
  lemma {:induction false} MergeOrderDoesNotMatter(t: MergeTree, u: MergeTree, page: int)
    requires multiset(Leaves(t)) == multiset(Leaves(u))
    ensures Block(t, page).blockIndices == Block(u, page).blockIndices
    ensures Block(t, page).box == Block(u, page).box
  {
    BlockCarriesItsMembers(t, page);
    BlockCarriesItsMembers(u, page);
    SameMembersSameBlock(Block(t, page), Block(u, page), Leaves(t), Leaves(u));
  }

  // ----- the order of a page

  /** The comparator of the source: by top edge, and by left edge when the tops are within 1e-9. */
  function Compare(a: Box, b: Box): real {
    if a.y1 - b.y1 > 0.000000001 || b.y1 - a.y1 > 0.000000001 then a.y1 - b.y1 else a.x1 - b.x1
  }

  /** No box stands before one the comparator puts in front of it. */
  ghost predicate IsSorted(boxes: seq<Box>) {
    forall i, j | 0 <= i < j < |boxes| :: Compare(boxes[i], boxes[j]) <= 0.0
  }

  /** Three boxes of which each belongs in front of the next, around a circle: no order of them is sorted. */
  lemma {:induction false} ComparatorIsNotTransitive() returns (a: Box, b: Box, c: Box)
    ensures Compare(b, a) < 0.0 && Compare(c, b) < 0.0 && Compare(a, c) < 0.0
    ensures forall boxes: seq<Box> | multiset(boxes) == multiset{a, b, c} :: !IsSorted(boxes)
  {
    a := Box(2.0, 0.0, 3.0, 1.0);
    b := Box(1.0, 0.0000000006, 3.0, 1.0);
    c := Box(0.0, 0.0000000012, 3.0, 1.0);
    forall boxes: seq<Box> | multiset(boxes) == multiset{a, b, c} ensures !IsSorted(boxes) {
      CircleIsNotSorted(boxes, a, b, c);
    }
  }

  lemma {:induction false} CircleIsNotSorted(boxes: seq<Box>, a: Box, b: Box, c: Box)
    requires multiset(boxes) == multiset{a, b, c} && a != b && b != c && a != c
    requires Compare(a, b) > 0.0 && Compare(b, c) > 0.0 && Compare(c, a) > 0.0
    ensures !IsSorted(boxes)
  {
    assert |boxes| == |multiset(boxes)|;
    assert boxes[0] in multiset(boxes);
    var next := if boxes[0] == a then b else if boxes[0] == b then c else a;
    assert next in multiset(boxes);
    var j :| 0 <= j < |boxes| && boxes[j] == next;
    assert Compare(boxes[0], boxes[j]) > 0.0;
  }
}
