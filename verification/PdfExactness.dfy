/**
 When greedy reconciliation (pdf_utils.py) finds exactly the pairs that belong together: for all lists of
 blocks, and in particular for boxes that do not overlap.
 */
module PdfExactness {
  import opened Geometry
  import opened Wrappers
  import opened PdfReconcile
  import opened PdfOverlap

  /** The pairs reconciliation is after: partners, of which the PDF block has text. */
  ghost predicate Wanted(block: PageBlock, pdf: PageBlock, strip: string -> string) {
    Partners(block, pdf) && strip(pdf.text) != ""
  }

  /** Partners of which the PDF block has no text: they can win the scan and spoil the block's match. */
  ghost predicate Textless(block: PageBlock, pdf: PageBlock, strip: string -> string) {
    Partners(block, pdf) && strip(pdf.text) == ""
  }

  function PairScore(block: PageBlock, pdf: PageBlock): real
    requires NormalizeBbox(block.bbox).Some?
  {
    Score(NormalizeBbox(block.bbox).value, NormalizePage(block.page), pdf)
  }

  /** No block is wanted by two, on either side. */
  ghost predicate OneToOne(ocr: seq<PageBlock>, pdfs: seq<PageBlock>, strip: string -> string) {
    forall i, j, p, q | 0 <= i < |ocr| && 0 <= j < |ocr| && 0 <= p < |pdfs| && 0 <= q < |pdfs|
      && Wanted(ocr[i], pdfs[p], strip) && Wanted(ocr[j], pdfs[q], strip) :: i == j <==> p == q
  }

  /** The scan meets `p` before `q`, or scores it higher. */
  ghost predicate Outranks(block: PageBlock, pdfs: seq<PageBlock>, p: nat, q: nat)
    requires NormalizeBbox(block.bbox).Some? && p < |pdfs| && q < |pdfs|
  {
    PairScore(block, pdfs[q]) < PairScore(block, pdfs[p]) || (PairScore(block, pdfs[q]) == PairScore(block, pdfs[p]) && p < q)
  }

  ghost predicate TextWins(ocr: seq<PageBlock>, pdfs: seq<PageBlock>, strip: string -> string) {
    forall i, p, q | 0 <= i < |ocr| && 0 <= p < |pdfs| && 0 <= q < |pdfs|
      && Wanted(ocr[i], pdfs[p], strip) && Textless(ocr[i], pdfs[q], strip) :: Outranks(ocr[i], pdfs, p, q)
  }

  /** Block `i` is matched with exactly the PDF blocks it wants. */
  ghost predicate ExactAt(ocr: seq<PageBlock>, pdfs: seq<PageBlock>, strip: string -> string, i: nat)
    requires i < |ocr|
  {
    forall p | 0 <= p < |pdfs| :: Matches(ocr, pdfs, strip)[i] == p <==> Wanted(ocr[i], pdfs[p], strip)
  }

  ghost predicate Exact(ocr: seq<PageBlock>, pdfs: seq<PageBlock>, strip: string -> string) {
    forall i | 0 <= i < |ocr| :: ExactAt(ocr, pdfs, strip, i)
  }

  lemma {:induction false} MatchesPrefix(ocr: seq<PageBlock>, pdfs: seq<PageBlock>, strip: string -> string, i: nat)
    requires i < |ocr|
    ensures Matches(ocr, pdfs, strip)[..i] == Matches(ocr[..i], pdfs, strip)
    ensures Matches(ocr, pdfs, strip)[i] == Choice(ocr[i], pdfs, Taken(Matches(ocr[..i], pdfs, strip)), strip)
  {
    var front := ocr[..|ocr| - 1];
    if i < |front| {
      MatchesPrefix(front, pdfs, strip, i);
      assert front[..i] == ocr[..i];
    }
  }

  /** Of the unused blocks with the highest score the scan keeps the first. */
  lemma {:induction false} BestIsFirst(box: Box, page: int, pdfs: seq<PageBlock>, used: set<int>, n: nat, q: nat)
    requires q < n <= |pdfs| && q !in used
    ensures var (index, score) := Best(box, page, pdfs, used, n);
      Score(box, page, pdfs[q]) == score > 0.0 ==> 0 <= index <= q
  {
    BestIsArgmax(box, page, pdfs, used, n - 1);
    if q < n - 1 {
      BestIsFirst(box, page, pdfs, used, n - 1, q);
    }
  }

  // ----- the condition is enough

  lemma {:induction false} TakenWasWanted(ocr: seq<PageBlock>, pdfs: seq<PageBlock>, strip: string -> string, p: nat) returns (j: nat)
    requires p in Taken(Matches(ocr, pdfs, strip))
    ensures j < |ocr| && p < |pdfs| && Wanted(ocr[j], pdfs[p], strip)
  {
    var matches := Matches(ocr, pdfs, strip);
    MatchesAreInjective(ocr, pdfs, strip);
    j :| 0 <= j < |matches| && matches[j] == p;
  }

  /** Nothing a block wants is used by the blocks before it. */
  lemma {:induction false} WantedIsFree(ocr: seq<PageBlock>, pdfs: seq<PageBlock>, strip: string -> string, i: nat, p: nat)
    requires OneToOne(ocr, pdfs, strip) && i < |ocr| && p < |pdfs| && Wanted(ocr[i], pdfs[p], strip)
    ensures p !in Taken(Matches(ocr[..i], pdfs, strip))
  {
    if p in Taken(Matches(ocr[..i], pdfs, strip)) {
      var j := TakenWasWanted(ocr[..i], pdfs, strip, p);
    }
  }

  lemma {:induction false} WantedIsChosen(ocr: seq<PageBlock>, pdfs: seq<PageBlock>, strip: string -> string, i: nat, p: nat)
    requires OneToOne(ocr, pdfs, strip) && TextWins(ocr, pdfs, strip)
    requires i < |ocr| && p < |pdfs| && Wanted(ocr[i], pdfs[p], strip)
    ensures Matches(ocr, pdfs, strip)[i] == p
  {
    var used := Taken(Matches(ocr[..i], pdfs, strip));
    var box, page := NormalizeBbox(ocr[i].bbox).value, NormalizePage(ocr[i].page);
    MatchesPrefix(ocr, pdfs, strip, i);
    WantedIsFree(ocr, pdfs, strip, i, p);
    BestIsArgmax(box, page, pdfs, used, |pdfs|);
    BestIsFirst(box, page, pdfs, used, |pdfs|, p);
    var (index, score) := Best(box, page, pdfs, used, |pdfs|);
    assert score >= PairScore(ocr[i], pdfs[p]) >= 0.55;
    assert Partners(ocr[i], pdfs[index]);
    assert Textless(ocr[i], pdfs[index], strip) || Wanted(ocr[i], pdfs[index], strip);
  }

  // ----- the condition is needed

  lemma {:induction false} ExactIsOneToOne(ocr: seq<PageBlock>, pdfs: seq<PageBlock>, strip: string -> string)
    requires Exact(ocr, pdfs, strip)
    ensures OneToOne(ocr, pdfs, strip)
  {
    var matches := Matches(ocr, pdfs, strip);
    MatchesAreInjective(ocr, pdfs, strip);
    forall i, j, p, q | 0 <= i < |ocr| && 0 <= j < |ocr| && 0 <= p < |pdfs| && 0 <= q < |pdfs|
      && Wanted(ocr[i], pdfs[p], strip) && Wanted(ocr[j], pdfs[q], strip)
      ensures i == j <==> p == q
    {
      assert ExactAt(ocr, pdfs, strip, i) && ExactAt(ocr, pdfs, strip, j);
      assert matches[i] == p && matches[j] == q;
    }
  }

  /** A matched block's choice outranks every unused block. */
  lemma {:induction false} ChosenOutranks(ocr: seq<PageBlock>, pdfs: seq<PageBlock>, strip: string -> string, i: nat, p: nat, q: nat)
    requires i < |ocr| && p < |pdfs| && q < |pdfs| && p != q && Matches(ocr, pdfs, strip)[i] == p
    requires NormalizeBbox(ocr[i].bbox).Some? && q !in Taken(Matches(ocr[..i], pdfs, strip))
    ensures Outranks(ocr[i], pdfs, p, q)
  {
    var used := Taken(Matches(ocr[..i], pdfs, strip));
    var box, page := NormalizeBbox(ocr[i].bbox).value, NormalizePage(ocr[i].page);
    MatchesPrefix(ocr, pdfs, strip, i);
    BestIsArgmax(box, page, pdfs, used, |pdfs|);
    BestIsFirst(box, page, pdfs, used, |pdfs|, q);
  }

  lemma {:induction false} TextlessIsNeverTaken(ocr: seq<PageBlock>, pdfs: seq<PageBlock>, strip: string -> string, q: nat)
    requires q < |pdfs| && strip(pdfs[q].text) == ""
    ensures q !in Taken(Matches(ocr, pdfs, strip))
  {
    if q in Taken(Matches(ocr, pdfs, strip)) {
      var j := TakenWasWanted(ocr, pdfs, strip, q);
    }
  }

  lemma {:induction false} ExactLetsTextWin(ocr: seq<PageBlock>, pdfs: seq<PageBlock>, strip: string -> string)
    requires Exact(ocr, pdfs, strip)
    ensures TextWins(ocr, pdfs, strip)
  {
    forall i, p, q | 0 <= i < |ocr| && 0 <= p < |pdfs| && 0 <= q < |pdfs|
      && Wanted(ocr[i], pdfs[p], strip) && Textless(ocr[i], pdfs[q], strip)
      ensures Outranks(ocr[i], pdfs, p, q)
    {
      assert ExactAt(ocr, pdfs, strip, i);
      TextlessIsNeverTaken(ocr[..i], pdfs, strip, q);
      ChosenOutranks(ocr, pdfs, strip, i, p, q);
    }
  }

  /**
   Greedy reconciliation matches exactly the wanted pairs if and only if no block is wanted twice and no
   textless partner of a block is met first with its best score, or scores higher, than the one it wants.
   */
  lemma {:induction false} GreedyIsExactIff(ocr: seq<PageBlock>, pdfs: seq<PageBlock>, strip: string -> string)
    ensures Exact(ocr, pdfs, strip) <==> OneToOne(ocr, pdfs, strip) && TextWins(ocr, pdfs, strip)
  {
    if Exact(ocr, pdfs, strip) {
      ExactIsOneToOne(ocr, pdfs, strip);
      ExactLetsTextWin(ocr, pdfs, strip);
    }
    if OneToOne(ocr, pdfs, strip) && TextWins(ocr, pdfs, strip) {
      MatchesAreInjective(ocr, pdfs, strip);
      forall i | 0 <= i < |ocr| ensures ExactAt(ocr, pdfs, strip, i) {
        forall p | 0 <= p < |pdfs| && Wanted(ocr[i], pdfs[p], strip) ensures Matches(ocr, pdfs, strip)[i] == p {
          WantedIsChosen(ocr, pdfs, strip, i, p);
        }
      }
    }
  }

  /** When every PDF block has text, as the ones taken from a PDF here do, being one-to-one is all it takes. */
  lemma {:induction false} WithTextsExactIffOneToOne(ocr: seq<PageBlock>, pdfs: seq<PageBlock>, strip: string -> string)
    requires forall p | 0 <= p < |pdfs| :: strip(pdfs[p].text) != ""
    ensures Exact(ocr, pdfs, strip) <==> OneToOne(ocr, pdfs, strip)
  {
    forall i, q | 0 <= i < |ocr| && 0 <= q < |pdfs| ensures !Textless(ocr[i], pdfs[q], strip) {}
    GreedyIsExactIff(ocr, pdfs, strip);
  }

  // ----- boxes that do not overlap

  /**
   With non-overlapping OCR boxes and non-overlapping PDF boxes greedy reconciliation is exact. What it
   then matches does not depend on the order of either list.
   */
  lemma {:induction false} GreedyIsExact(ocr: seq<PageBlock>, pdfs: seq<PageBlock>, strip: string -> string)
    requires NonOverlapping(ocr) && NonOverlapping(pdfs)
    ensures Exact(ocr, pdfs, strip)
  {
    forall i, j, p, q | 0 <= i < |ocr| && 0 <= j < |ocr| && 0 <= p < |pdfs| && 0 <= q < |pdfs|
      && Wanted(ocr[i], pdfs[p], strip) && Wanted(ocr[j], pdfs[q], strip)
      ensures i == j <==> p == q
    {
      if i == j { PartnersAreUnique(pdfs, p, q, ocr[i]); }
      if p == q { PartnersAreUnique(ocr, i, j, pdfs[p]); }
    }
    forall i, p, q | 0 <= i < |ocr| && 0 <= p < |pdfs| && 0 <= q < |pdfs| && Wanted(ocr[i], pdfs[p], strip)
      ensures !Textless(ocr[i], pdfs[q], strip)
    {
      if Textless(ocr[i], pdfs[q], strip) { PartnersAreUnique(pdfs, p, q, ocr[i]); }
    }
    GreedyIsExactIff(ocr, pdfs, strip);
  }

  /** Boxes that are wanted twice: of two coinciding OCR boxes only the first is corrected. */
  lemma {:induction false} CoincidingBoxesAreNotExact(o: PageBlock, p: PageBlock, strip: string -> string)
    requires Wanted(o, p, strip)
    ensures Matches([o, o], [p], strip) == [0, -1] && !Exact([o, o], [p], strip)
  {
    var ocr, pdfs := [o, o], [p];
    assert ocr[..1] == [o] && [o][..0] == [];
    WantedAlone(o, p, strip);
    MatchesPrefix(ocr, pdfs, strip, 1);
    MatchesAreInjective(ocr, pdfs, strip);
    assert Matches(ocr, pdfs, strip)[..1] == [0];
    assert !ExactAt(ocr, pdfs, strip, 1) by { assert Wanted(ocr[1], pdfs[0], strip); }
  }

  lemma {:induction false} WantedAlone(o: PageBlock, p: PageBlock, strip: string -> string)
    requires Wanted(o, p, strip)
    ensures Matches([o], [p], strip) == [0]
  {
    WantedIsChosen([o], [p], strip, 0, 0);
  }

  /** A textless duplicate in front of the wanted block leaves the OCR block uncorrected. */
  lemma {:induction false} TextlessDuplicateSpoilsTheMatch(o: PageBlock, p: PageBlock, strip: string -> string)
    requires Wanted(o, p, strip) && strip("") == ""
    ensures Matches([o], [p.(text := ""), p], strip) == [-1] && !Exact([o], [p.(text := ""), p], strip)
  {
    var pdfs := [p.(text := ""), p];
    assert Textless(o, pdfs[0], strip) && Wanted(o, pdfs[1], strip) && !Outranks(o, pdfs, 1, 0);
    MatchesAreInjective([o], pdfs, strip);
    if Matches([o], pdfs, strip)[0] == 1 {
      TextlessIsNeverTaken([o][..0], pdfs, strip, 0);
      ChosenOutranks([o], pdfs, strip, 0, 1, 0);
    }
    assert !ExactAt([o], pdfs, strip, 0) by { assert Wanted([o][0], pdfs[1], strip); }
  }

  lemma {:induction false} ProductOfOnes(x: real, y: real)
    requires x == 1.0 && y == 1.0
    ensures Product(x, y) == 1.0
  {
  }

  lemma {:induction false} UnitArea(unit: Box)
    requires unit.x2 - unit.x1 == 1.0 && unit.y2 - unit.y1 == 1.0
    ensures Area(unit) == 1.0
  {
    ProductOfOnes(unit.x2 - unit.x1, unit.y2 - unit.y1);
  }

  /** Two readings of one box of at least a millionth of a page, the second with text, are a wanted pair. */
  lemma {:induction false} SameBoxIsWanted(block: PageBlock, pdf: PageBlock, strip: string -> string)
    requires block.page == pdf.page && block.bbox == pdf.bbox && NormalizeBbox(pdf.bbox).Some?
    requires Area(NormalizeBbox(pdf.bbox).value) >= 0.000001 && strip(pdf.text) != ""
    ensures Wanted(block, pdf, strip)
  {
    SameBoxIsPartner(block, pdf);
  }

  lemma {:induction false} UnitBoxNormalizes(q: RawBox)
    requires q == RawBox(0.0, 0.0, 1.0, 1.0)
    ensures NormalizeBbox(Some(q)) == Some(Box(0.0, 0.0, 1.0, 1.0))
  {
  }

  /** A pair that belongs together: one box, read twice on the same page. */
  lemma {:induction false} UnitBoxIsWanted(block: PageBlock, pdf: PageBlock, q: RawBox, strip: string -> string)
    requires q == RawBox(0.0, 0.0, 1.0, 1.0) && block.bbox == Some(q) && pdf.bbox == Some(q)
    requires block.page == pdf.page && strip(pdf.text) != ""
    ensures Wanted(block, pdf, strip)
  {
    UnitBoxNormalizes(q);
    UnitIsLargeEnough(NormalizeBbox(pdf.bbox));
    SameBoxIsWanted(block, pdf, strip);
  }

  lemma {:induction false} UnitIsLargeEnough(box: Option<Box>)
    requires box == Some(Box(0.0, 0.0, 1.0, 1.0))
    ensures Area(box.value) >= 0.000001
  {
    UnitArea(box.value);
  }
}
