/**
 Merging of OCR boxes (ocrPostProcessor.ts). On each page, boxes are merged pairwise in place,
 a merged-away slot becoming a tombstone, until a whole pass changes nothing.
 */
module OcrMerge {
  import opened Wrappers
  import opened Geometry
  import Grouping
  import Sorting
  import Text

  datatype OcrBlock = OcrBlock(text: string, page: int, bbox: Option<Box>)

  /** A block that has a box, with its position in the provider's list. */
  datatype Entry = Entry(text: string, page: int, box: Box, originalIndex: nat)

  datatype MergedBlock = MergedBlock(text: string, page: int, blockIndices: seq<nat>, box: Box)

  /** How a merged block came about: which slots were joined into which, left operand first. */
  datatype MergeTree = Leaf(entry: Entry) | Join(left: MergeTree, right: MergeTree)

  predicate NatLe(x: nat, y: nat) {
    x <= y
  }

  predicate ShouldMerge(a: Box, b: Box) {
    var aHeight, bHeight := a.y2 - a.y1, b.y2 - b.y1;
    var shorterHeight := Min(aHeight, bHeight);
    if shorterHeight <= 0.0 then false
    else
      var overlapHeight := Min(a.y2, b.y2) - Max(a.y1, b.y1);
      if overlapHeight <= 0.0 then false
      else if overlapHeight / shorterHeight <= 0.7 then false
      else Max(a.x1, b.x1) - Min(a.x2, b.x2) < 0.02
  }

  lemma {:induction false} ShouldMergeIsSymmetric(a: Box, b: Box)
    ensures ShouldMerge(a, b) <==> ShouldMerge(b, a)
  {
  }

  function CombineMergedBlocks(a: MergedBlock, b: MergedBlock): MergedBlock {
    MergedBlock(
      if a.box.x1 <= b.box.x1 then Text.Trim(a.text + " " + b.text) else Text.Trim(b.text + " " + a.text),
      a.page,
      Sorting.StableSort(a.blockIndices + b.blockIndices, NatLe),
      Hull(a.box, b.box))
  }

  // ----- what a merge tree stands for

  /** The merged block that a tree of merges produces. */
  function Block(t: MergeTree, page: int): MergedBlock {
    match t
    case Leaf(e) => MergedBlock(e.text, page, [e.originalIndex], e.box)
    case Join(l, r) => CombineMergedBlocks(Block(l, page), Block(r, page))
  }

  function Leaves(t: MergeTree): seq<Entry> {
    match t
    case Leaf(e) => [e]
    case Join(l, r) => Leaves(l) + Leaves(r)
  }

  /** The entry in whose slot the merged block ends up. */
  function Seed(t: MergeTree): Entry {
    match t
    case Leaf(e) => e
    case Join(l, _) => Seed(l)
  }

  /** Every join of the tree was between two blocks that `ShouldMerge` related at that moment. */
  ghost predicate Justified(t: MergeTree) {
    match t
    case Leaf(_) => true
    case Join(l, r) => Justified(l) && Justified(r) && ShouldMerge(Block(l, 0).box, Block(r, 0).box)
  }

  function Indices(entries: seq<Entry>): seq<nat> {
    seq(|entries|, i requires 0 <= i < |entries| => entries[i].originalIndex)
  }

  function Boxes(entries: seq<Entry>): seq<Box> {
    seq(|entries|, i requires 0 <= i < |entries| => entries[i].box)
  }

  /** `b` carries exactly `members`: their indices in ascending order and the least box around them. */
  ghost predicate Carries(b: MergedBlock, members: seq<Entry>) {
    && b.blockIndices != []
    && multiset(b.blockIndices) == multiset(Indices(members))
    && Sorting.Sorted(b.blockIndices, NatLe)
    && IsHull(b.box, Boxes(members))
  }

  lemma {:induction false} IndicesAppend(a: seq<Entry>, b: seq<Entry>)
    ensures Indices(a + b) == Indices(a) + Indices(b)
    ensures Boxes(a + b) == Boxes(a) + Boxes(b)
  {
  }

  lemma {:induction false} CombiningCarriesBoth(a: MergedBlock, b: MergedBlock, s: seq<Entry>, t: seq<Entry>)
    requires Carries(a, s) && Carries(b, t)
    ensures Carries(CombineMergedBlocks(a, b), s + t)
  {
    IndicesAppend(s, t);
    assert IsHull(Hull(a.box, b.box), Boxes(s + t)) by { HullOfConcat(a.box, b.box, Boxes(s), Boxes(t)); }
    var both := a.blockIndices + b.blockIndices;
    Sorting.StableSortPermutes(both, NatLe);
    Sorting.StableSortSorts(both, NatLe);
  }

  /** A merged block carries its members whatever the order in which they were merged. */
  lemma {:induction false} BlockCarriesItsMembers(t: MergeTree, page: int)
    ensures Carries(Block(t, page), Leaves(t))
    ensures Block(t, page).page == page && Block(t, page).box == Block(t, 0).box
  {
    match t
    case Leaf(e) =>
      assert Indices([e]) == [e.originalIndex] && Boxes([e]) == [e.box];
      HullOfSingle(e.box);
    case Join(l, r) =>
      BlockCarriesItsMembers(l, page);
      BlockCarriesItsMembers(r, page);
      CombiningCarriesBoth(Block(l, page), Block(r, page), Leaves(l), Leaves(r));
  }

  // ----- one page

  /** A slot of the `merged` array: a live block described by its tree, or a tombstone. */
  type Slot = Option<MergeTree>

  function SlotBlock(s: Slot, page: int): MergedBlock {
    match s
    case None => MergedBlock("", page, [], TOMBSTONE_BOX)
    case Some(t) => Block(t, page)
  }

  function SlotLeaves(s: Slot): multiset<Entry> {
    if s.None? then multiset{} else multiset(Leaves(s.value))
  }

  function AllLeaves(slots: seq<Slot>): multiset<Entry> {
    if slots == [] then multiset{} else SlotLeaves(slots[0]) + AllLeaves(slots[1..])
  }

  function Live(slots: seq<Slot>): nat {
    if slots == [] then 0 else (if slots[0].None? then 0 else 1) + Live(slots[1..])
  }

  function Emit(s: Slot, page: int, fix: string -> string): seq<MergedBlock> {
    match s
    case None => []
    case Some(t) => [Block(t, page).(text := fix(Block(t, page).text))]
  }

  /** The live blocks in slot order, their digits repaired by `fix`. */
  function Collect(slots: seq<Slot>, page: int, fix: string -> string): seq<MergedBlock> {
    if slots == [] then [] else Emit(slots[0], page, fix) + Collect(slots[1..], page, fix)
  }

  /** Not two live blocks that should merge. */
  ghost predicate Apart(a: Slot, b: Slot) {
    a.Some? && b.Some? ==> !ShouldMerge(Block(a.value, 0).box, Block(b.value, 0).box)
  }

  ghost predicate Settled(slots: seq<Slot>) {
    forall i, j | 0 <= i < j < |slots| :: Apart(slots[i], slots[j])
  }

  /** The slots are some justified merging of `entries`, each result in the slot of its seed. */
  ghost predicate MergingOf(slots: seq<Slot>, entries: seq<Entry>) {
    && |slots| == |entries|
    && (forall i | 0 <= i < |slots| && slots[i].Some? :: Justified(slots[i].value) && Seed(slots[i].value) == entries[i])
    && AllLeaves(slots) == multiset(entries)
  }

  /** The leaves of all slots but `i`. */
  function OtherLeaves(slots: seq<Slot>, i: nat): multiset<Entry>
    requires i < |slots|
  {
    if i == 0 then AllLeaves(slots[1..]) else SlotLeaves(slots[0]) + OtherLeaves(slots[1..], i - 1)
  }

  lemma {:induction false} SplitOffSlot(slots: seq<Slot>, i: nat)
    requires i < |slots|
    ensures AllLeaves(slots) == SlotLeaves(slots[i]) + OtherLeaves(slots, i)
  {
    if i > 0 {
      SplitOffSlot(slots[1..], i - 1);
    }
  }

  lemma {:induction false} ReplaceSlot(slots: seq<Slot>, i: nat, s: Slot)
    requires i < |slots|
    ensures OtherLeaves(slots[i := s], i) == OtherLeaves(slots, i)
    ensures Live(slots[i := s]) + (if slots[i].None? then 0 else 1) == Live(slots) + (if s.None? then 0 else 1)
  {
    if i == 0 {
      assert slots[i := s][1..] == slots[1..];
    } else {
      assert slots[i := s][1..] == slots[1..][i - 1 := s];
      ReplaceSlot(slots[1..], i - 1, s);
    }
  }

  lemma {:induction false} SlotBoxIsPageless(s: Slot, page: int)
    ensures SlotBlock(s, page).blockIndices == [] <==> s.None?
    ensures s.Some? ==> SlotBlock(s, page).box == Block(s.value, 0).box
  {
    if s.Some? {
      BlockCarriesItsMembers(s.value, page);
    }
  }

  function Joined(slots: seq<Slot>, i: nat, j: nat): seq<Slot>
    requires i < j < |slots| && slots[i].Some? && slots[j].Some?
  {
    slots[j := None][i := Some(Join(slots[i].value, slots[j].value))]
  }

  lemma {:induction false} JoiningKeepsLeaves(slots: seq<Slot>, i: nat, j: nat)
    requires i < j < |slots| && slots[i].Some? && slots[j].Some?
    ensures AllLeaves(Joined(slots, i, j)) == AllLeaves(slots)
  {
    var mid := slots[j := None];
    assert AllLeaves(slots) == SlotLeaves(slots[j]) + AllLeaves(mid) by {
      SplitOffSlot(slots, j);
      SplitOffSlot(mid, j);
      ReplaceSlot(slots, j, None);
    }
    var t := Some(Join(slots[i].value, slots[j].value));
    assert SlotLeaves(t) == SlotLeaves(slots[i]) + SlotLeaves(slots[j]);
    SplitOffSlot(mid, i);
    SplitOffSlot(mid[i := t], i);
    ReplaceSlot(mid, i, t);
  }

  /** The array of slots and its ghost description agree, and describe a merging of `entries`. */
  ghost predicate PageState(merged: seq<MergedBlock>, slots: seq<Slot>, entries: seq<Entry>, page: int) {
    && MergingOf(slots, entries)
    && |merged| == |slots|
    && (forall i | 0 <= i < |slots| :: merged[i] == SlotBlock(slots[i], page))
  }

  const TOMBSTONE_BOX := Box(0.0, 0.0, 0.0, 0.0)

  lemma {:induction false} JoiningKeepsMerging(slots: seq<Slot>, entries: seq<Entry>, i: nat, j: nat)
    requires MergingOf(slots, entries) && i < j < |slots| && slots[i].Some? && slots[j].Some?
    requires !Apart(slots[i], slots[j])
    ensures MergingOf(Joined(slots, i, j), entries)
    ensures Live(Joined(slots, i, j)) == Live(slots) - 1
  {
    JoiningKeepsLeaves(slots, i, j);
    ReplaceSlot(slots, j, None);
    ReplaceSlot(slots[j := None], i, Some(Join(slots[i].value, slots[j].value)));
  }

  lemma {:induction false} JoinedBlocks(merged: seq<MergedBlock>, slots: seq<Slot>, page: int, i: nat, j: nat)
    requires |merged| == |slots| && forall k | 0 <= k < |slots| :: merged[k] == SlotBlock(slots[k], page)
    requires i < j < |slots| && slots[i].Some? && slots[j].Some?
    ensures var after := merged[i := CombineMergedBlocks(merged[i], merged[j])][j := MergedBlock("", page, [], TOMBSTONE_BOX)];
      forall k | 0 <= k < |slots| :: after[k] == SlotBlock(Joined(slots, i, j)[k], page)
  {
    assert SlotBlock(Joined(slots, i, j)[i], page) == CombineMergedBlocks(merged[i], merged[j]);
  }

  /** Joining slot `j` into slot `i` keeps the page a merging of the same entries, with one live block fewer. */
  lemma {:induction false} JoinStep(merged: seq<MergedBlock>, slots: seq<Slot>, entries: seq<Entry>, page: int, i: nat, j: nat)
    requires PageState(merged, slots, entries, page) && i < j < |slots| && slots[i].Some? && slots[j].Some?
    requires ShouldMerge(merged[i].box, merged[j].box)
    ensures PageState(
      merged[i := CombineMergedBlocks(merged[i], merged[j])][j := MergedBlock("", page, [], TOMBSTONE_BOX)],
      Joined(slots, i, j), entries, page)
    ensures Live(Joined(slots, i, j)) == Live(slots) - 1
  {
    SlotBoxIsPageless(slots[i], page);
    SlotBoxIsPageless(slots[j], page);
    JoiningKeepsMerging(slots, entries, i, j);
    JoinedBlocks(merged, slots, page, i, j);
  }

  lemma {:induction false} SingletonsMerge(entries: seq<Entry>)
    ensures var slots := seq(|entries|, i requires 0 <= i < |entries| => Some(Leaf(entries[i])));
      MergingOf(slots, entries) && Live(slots) == |entries|
  {
    var slots := seq(|entries|, i requires 0 <= i < |entries| => Some(Leaf(entries[i])));
    SingletonLeaves(slots, entries);
  }

  lemma {:induction false} SingletonLeaves(slots: seq<Slot>, entries: seq<Entry>)
    requires |slots| == |entries| && forall i | 0 <= i < |slots| :: slots[i] == Some(Leaf(entries[i]))
    ensures AllLeaves(slots) == multiset(entries) && Live(slots) == |entries|
  {
    if entries == [] {
    } else {
      SingletonLeaves(slots[1..], entries[1..]);
      assert entries == [entries[0]] + entries[1..];
    }
  }

  /**
   What a pass has achieved when it reaches pair (i, j): it has killed a live block, or it has found
   that no live pair before (i, j), in the order it visits pairs, should merge.
   */
  ghost predicate Progress(slots: seq<Slot>, before: nat, changed: bool, i: nat, j: nat) {
    if changed then Live(slots) < before
    else
      && Live(slots) == before
      && forall a, b | 0 <= a < b < |slots| && (a < i || (a == i && b < j)) ::
        Apart(slots[a], slots[b])
  }

  lemma {:induction false} VisitPair(slots: seq<Slot>, before: nat, changed: bool, i: nat, j: nat)
    requires i < j < |slots| && Progress(slots, before, changed, i, j) && Apart(slots[i], slots[j])
    ensures Progress(slots, before, changed, i, j + 1)
  {
  }

  lemma {:induction false} CollectSnoc(slots: seq<Slot>, s: Slot, page: int, fix: string -> string)
    ensures Collect(slots + [s], page, fix) == Collect(slots, page, fix) + Emit(s, page, fix)
  {
    if slots == [] {
      assert slots + [s] == [s] && [s][1..] == [];
    } else {
      assert (slots + [s])[1..] == slots[1..] + [s];
      CollectSnoc(slots[1..], s, page, fix);
    }
  }

  method CollectLive(merged: array<MergedBlock>, ghost slots: seq<Slot>, ghost entries: seq<Entry>, page: int, fix: string -> string)
    returns (result: seq<MergedBlock>)
    requires PageState(merged[..], slots, entries, page) && Settled(slots)
    ensures result == Collect(slots, page, fix)
    ensures forall i, j | 0 <= i < j < |result| :: !ShouldMerge(result[i].box, result[j].box)
    ensures multiset(AllIndices(result)) == multiset(Indices(entries))
  {
    result := [];
    for i := 0 to merged.Length
      invariant result == Collect(slots[..i], page, fix)
    {
      var block := merged[i];
      assert block == SlotBlock(slots[i], page);
      SlotBoxIsPageless(slots[i], page);
      CollectSnoc(slots[..i], slots[i], page, fix);
      assert slots[..i + 1] == slots[..i] + [slots[i]];
      if |block.blockIndices| > 0 {
        result := result + [block.(text := fix(block.text))];
      }
    }
    assert slots[..merged.Length] == slots;
    CollectIsSettled(slots, page, fix);
    PageKeepsIndices(slots, entries, entries, page, fix);
  }

  /** Merges into slot `i`, one after the other, the later blocks that should merge with what it has become. */
  method AbsorbInto(merged: array<MergedBlock>, ghost slots: seq<Slot>, ghost entries: seq<Entry>, page: int, i: nat,
                    ghost before: nat, changed: bool) returns (changes: bool, ghost after: seq<Slot>)
    requires i < merged.Length && PageState(merged[..], slots, entries, page) && slots[i].Some?
    requires Progress(slots, before, changed, i, 0)
    modifies merged
    ensures PageState(merged[..], after, entries, page)
    ensures Progress(after, before, changes, i + 1, 0)
  {
    changes, after := changed, slots;
    for j := i + 1 to merged.Length
      invariant PageState(merged[..], after, entries, page) && after[i].Some?
      invariant Progress(after, before, changes, i, j)
    {
      SlotBoxIsPageless(after[i], page);
      SlotBoxIsPageless(after[j], page);
      if |merged[j].blockIndices| == 0 {
        VisitPair(after, before, changes, i, j);
        continue;
      }
      if ShouldMerge(merged[i].box, merged[j].box) {
        JoinStep(merged[..], after, entries, page, i, j);
        var combined, tombstone := CombineMergedBlocks(merged[i], merged[j]), MergedBlock("", page, [], TOMBSTONE_BOX);
        ghost var was := merged[..];
        merged[i] := combined;
        merged[j] := tombstone;
        assert merged[..] == was[i := combined][j := tombstone];
        after := Joined(after, i, j);
        changes := true;
      } else {
        VisitPair(after, before, changes, i, j);
      }
    }
  }

  /**
   The in-place merging of one page, from whatever order the sort left the entries in. On exit no
   two live blocks should merge. Termination: every pass that changes something kills a live block.
   */
  method MergePage(page: int, entries: seq<Entry>, fix: string -> string)
    returns (result: seq<MergedBlock>, ghost slots: seq<Slot>)
    ensures MergingOf(slots, entries)
    ensures Settled(slots)
    ensures result == Collect(slots, page, fix)
    ensures forall i, j | 0 <= i < j < |result| :: !ShouldMerge(result[i].box, result[j].box)
    ensures multiset(AllIndices(result)) == multiset(Indices(entries))
  {
    var n := |entries|;
    var merged := new MergedBlock[n](i requires 0 <= i < n =>
      MergedBlock(entries[i].text, page, [entries[i].originalIndex], entries[i].box));
    slots := seq(n, i requires 0 <= i < n => Some(Leaf(entries[i])));
    SingletonsMerge(entries);

    var changed := true;
    while changed
      invariant PageState(merged[..], slots, entries, page)
      invariant !changed ==> Settled(slots)
      decreases Live(slots), changed
    {
      changed := false;
      ghost var before := Live(slots);
      for i := 0 to n
        invariant PageState(merged[..], slots, entries, page)
        invariant Progress(slots, before, changed, i, 0)
      {
        SlotBoxIsPageless(slots[i], page);
        if |merged[i].blockIndices| == 0 {
          continue;
        }
        changed, slots := AbsorbInto(merged, slots, entries, page, i, before, changed);
      }
    }

    result := CollectLive(merged, slots, entries, page, fix);
  }

  // ----- the whole document

  function PageOf(e: Entry): int {
    e.page
  }

  /** The blocks that have a box, in list order. */
  function Boxed(blocks: seq<OcrBlock>): seq<Entry> {
    if blocks == [] then []
    else
      var last := blocks[|blocks| - 1];
      Boxed(blocks[..|blocks| - 1])
      + (match last.bbox case None => [] case Some(box) => [Entry(last.text, last.page, box, |blocks| - 1)])
  }

  function AllIndices(merged: seq<MergedBlock>): seq<nat> {
    if merged == [] then [] else merged[0].blockIndices + AllIndices(merged[1..])
  }

  function CollectPages(slots: seq<seq<Slot>>, pages: seq<int>, fix: string -> string): seq<MergedBlock>
    requires |slots| == |pages|
  {
    if slots == [] then [] else Collect(slots[0], pages[0], fix) + CollectPages(slots[1..], pages[1..], fix)
  }

  ghost predicate Permutes(order: seq<Entry> -> seq<Entry>) {
    forall s {:trigger order(s)} :: multiset(order(s)) == multiset(s)
  }

  /** Each page of `pages` settled into a justified merging of exactly its own boxed blocks. */
  ghost predicate PagesMerged(slots: seq<seq<Slot>>, pages: seq<int>, entries: seq<Entry>) {
    && |slots| == |pages|
    && forall k | 0 <= k < |pages| :: PageMerged(slots[k], Grouping.Bucket(entries, PageOf, pages[k]))
  }

  ghost predicate PageMerged(slots: seq<Slot>, bucket: seq<Entry>) {
    Settled(slots) && exists sorted :: multiset(sorted) == multiset(bucket) && MergingOf(slots, sorted)
  }

  method CollectBoxed(blocks: seq<OcrBlock>) returns (entries: seq<Entry>)
    ensures entries == Boxed(blocks)
  {
    entries := [];
    for i := 0 to |blocks|
      invariant entries == Boxed(blocks[..i])
    {
      assert blocks[..i + 1][..i] == blocks[..i];
      match blocks[i].bbox {
        case None =>
        case Some(box) => entries := entries + [Entry(blocks[i].text, blocks[i].page, box, i)];
      }
    }
    assert blocks[..|blocks|] == blocks;
  }

  /**
   The comparator of the source sorts by top edge up to 1e-9 and is not transitive, so the order in
   which a page's entries are visited is any permutation: `order` is arbitrary.
   */
  method MergeBlocks(blocks: seq<OcrBlock>, order: seq<Entry> -> seq<Entry>, fix: string -> string)
    returns (result: seq<MergedBlock>, ghost slots: seq<seq<Slot>>)
    requires Permutes(order)
    ensures PagesMerged(slots, Grouping.Keys(Boxed(blocks), PageOf), Boxed(blocks))
    ensures result == CollectPages(slots, Grouping.Keys(Boxed(blocks), PageOf), fix)
    ensures FixedPoint(result)
    ensures forall r | r in result :: MergesBlocks(r, blocks)
    ensures forall x: nat :: multiset(AllIndices(result))[x] == (if x < |blocks| && blocks[x].bbox.Some? then 1 else 0)
  {
    var entries := CollectBoxed(blocks);
    var pages, byPage := Grouping.GroupBy(entries, PageOf);
    result, slots := [], [];
    for k := 0 to |pages|
      invariant PagesMerged(slots, pages[..k], entries)
      invariant result == CollectPages(slots, pages[..k], fix)
    {
      var pageResult, pageSlots := MergePage(pages[k], order(byPage[pages[k]]), fix);
      AddPage(slots, pages, k, entries, pageSlots, order(byPage[pages[k]]), fix);
      result, slots := result + pageResult, slots + [pageSlots];
    }
    assert pages[..|pages|] == pages;
    WholeResult(blocks, slots, fix);
  }

  lemma {:induction false} WholeResult(blocks: seq<OcrBlock>, slots: seq<seq<Slot>>, fix: string -> string)
    requires PagesMerged(slots, Grouping.Keys(Boxed(blocks), PageOf), Boxed(blocks))
    ensures var result := CollectPages(slots, Grouping.Keys(Boxed(blocks), PageOf), fix);
      && FixedPoint(result)
      && (forall r | r in result :: MergesBlocks(r, blocks))
      && forall x: nat :: multiset(AllIndices(result))[x] == (if x < |blocks| && blocks[x].bbox.Some? then 1 else 0)
  {
    var pages := Grouping.Keys(Boxed(blocks), PageOf);
    Grouping.KeysAreFirstSeen(Boxed(blocks), PageOf);
    MergingReachesAFixedPoint(slots, pages, Boxed(blocks), fix);
    MergingPartitionsTheBoxedBlocks(blocks, slots, fix);
    forall r | r in CollectPages(slots, pages, fix) ensures MergesBlocks(r, blocks) {
      PagesNeverMix(slots, pages, Boxed(blocks), fix, r);
      FaithfulToBlocks(r, blocks);
    }
  }

  lemma {:induction false} PageIsMerged(s: seq<Slot>, sorted: seq<Entry>, bucket: seq<Entry>)
    requires Settled(s) && MergingOf(s, sorted) && multiset(sorted) == multiset(bucket)
    ensures PageMerged(s, bucket)
  {
  }

  lemma {:induction false} PagesMergedSnoc(slots: seq<seq<Slot>>, pages: seq<int>, entries: seq<Entry>, s: seq<Slot>, page: int)
    requires PagesMerged(slots, pages, entries) && PageMerged(s, Grouping.Bucket(entries, PageOf, page))
    ensures PagesMerged(slots + [s], pages + [page], entries)
  {
    forall k | 0 <= k < |pages + [page]|
      ensures PageMerged((slots + [s])[k], Grouping.Bucket(entries, PageOf, (pages + [page])[k]))
    {
      if k < |pages| {
        assert (slots + [s])[k] == slots[k] && (pages + [page])[k] == pages[k];
      }
    }
  }

  lemma {:induction false} AddPage(slots: seq<seq<Slot>>, pages: seq<int>, k: nat, entries: seq<Entry>, s: seq<Slot>,
                                   sorted: seq<Entry>, fix: string -> string)
    requires k < |pages| && PagesMerged(slots, pages[..k], entries)
    requires Settled(s) && MergingOf(s, sorted) && multiset(sorted) == multiset(Grouping.Bucket(entries, PageOf, pages[k]))
    ensures PagesMerged(slots + [s], pages[..k + 1], entries)
    ensures CollectPages(slots + [s], pages[..k + 1], fix) == CollectPages(slots, pages[..k], fix) + Collect(s, pages[k], fix)
  {
    assert pages[..k + 1] == pages[..k] + [pages[k]];
    PageIsMerged(s, sorted, Grouping.Bucket(entries, PageOf, pages[k]));
    PagesMergedSnoc(slots, pages[..k], entries, s, pages[k]);
    CollectPagesSnoc(slots, pages[..k], s, pages[k], fix);
  }

  lemma {:induction false} CollectPagesSnoc(slots: seq<seq<Slot>>, pages: seq<int>, s: seq<Slot>, page: int, fix: string -> string)
    requires |slots| == |pages|
    ensures CollectPages(slots + [s], pages + [page], fix) == CollectPages(slots, pages, fix) + Collect(s, page, fix)
  {
    if slots == [] {
      assert slots + [s] == [s] && pages + [page] == [page];
    } else {
      assert (slots + [s])[1..] == slots[1..] + [s] && (pages + [page])[1..] == pages[1..] + [page];
      CollectPagesSnoc(slots[1..], pages[1..], s, page, fix);
    }
  }

  // ----- conservation of block indices

  function LeafList(slots: seq<Slot>): seq<Entry> {
    if slots == [] then [] else (if slots[0].None? then [] else Leaves(slots[0].value)) + LeafList(slots[1..])
  }

  lemma {:induction false} LeafListIsAllLeaves(slots: seq<Slot>)
    ensures multiset(LeafList(slots)) == AllLeaves(slots)
  {
    if slots == [] {
    } else {
      LeafListIsAllLeaves(slots[1..]);
    }
  }

  lemma {:induction false} IndicesRespectPermutation(s: seq<Entry>, t: seq<Entry>)
    requires multiset(s) == multiset(t)
    ensures multiset(Indices(s)) == multiset(Indices(t))
  {
    if s == [] {
      assert |multiset(t)| == 0;
    } else {
      var k := Sorting.MatchFirst(s, t);
      var a, b := t[..k], t[k + 1..];
      IndicesRespectPermutation(s[1..], a + b);
      assert s == [s[0]] + s[1..];
      IndicesAppend([s[0]], s[1..]);
      IndicesAppend(a, b);
      IndicesAppend(a + [t[k]], b);
      IndicesAppend(a, [t[k]]);
    }
  }

  lemma {:induction false} AllIndicesAppend(a: seq<MergedBlock>, b: seq<MergedBlock>)
    ensures AllIndices(a + b) == AllIndices(a) + AllIndices(b)
  {
    if a == [] {
      assert a + b == b;
    } else {
      assert (a + b)[1..] == a[1..] + b;
      AllIndicesAppend(a[1..], b);
    }
  }

  lemma {:induction false} SlotKeepsIndices(s: Slot, page: int, fix: string -> string)
    ensures multiset(AllIndices(Emit(s, page, fix))) == multiset(Indices(LeafList([s])))
  {
    assert [s][1..] == [];
    if s.Some? {
      var b := Block(s.value, page);
      BlockCarriesItsMembers(s.value, page);
      assert AllIndices([b.(text := fix(b.text))]) == b.blockIndices;
      assert LeafList([s]) == Leaves(s.value);
    } else {
      assert LeafList([s]) == [];
    }
  }

  lemma {:induction false} LeafListStep(slots: seq<Slot>)
    requires slots != []
    ensures LeafList(slots) == LeafList([slots[0]]) + LeafList(slots[1..])
  {
    assert [slots[0]][1..] == [];
  }

  lemma {:induction false} CollectKeepsIndices(slots: seq<Slot>, page: int, fix: string -> string)
    ensures multiset(AllIndices(Collect(slots, page, fix))) == multiset(Indices(LeafList(slots)))
  {
    if slots == [] {
    } else {
      CollectKeepsIndices(slots[1..], page, fix);
      SlotKeepsIndices(slots[0], page, fix);
      LeafListStep(slots);
      AllIndicesAppend(Emit(slots[0], page, fix), Collect(slots[1..], page, fix));
      IndicesAppend(LeafList([slots[0]]), LeafList(slots[1..]));
    }
  }

  lemma {:induction false} PageKeepsIndices(slots: seq<Slot>, sorted: seq<Entry>, bucket: seq<Entry>, page: int, fix: string -> string)
    requires MergingOf(slots, sorted) && multiset(sorted) == multiset(bucket)
    ensures multiset(AllIndices(Collect(slots, page, fix))) == multiset(Indices(bucket))
  {
    CollectKeepsIndices(slots, page, fix);
    LeafListIsAllLeaves(slots);
    IndicesRespectPermutation(LeafList(slots), bucket);
  }

  lemma {:induction false} PagesKeepIndices(slots: seq<seq<Slot>>, pages: seq<int>, entries: seq<Entry>, fix: string -> string)
    requires PagesMerged(slots, pages, entries)
    ensures multiset(AllIndices(CollectPages(slots, pages, fix)))
         == multiset(Indices(Grouping.Buckets(entries, PageOf, pages)))
  {
    if slots == [] {
    } else {
      PagesKeepIndices(slots[1..], pages[1..], entries, fix);
      AllIndicesAppend(Collect(slots[0], pages[0], fix), CollectPages(slots[1..], pages[1..], fix));
      var bucket := Grouping.Bucket(entries, PageOf, pages[0]);
      var sorted :| multiset(sorted) == multiset(bucket) && MergingOf(slots[0], sorted);
      PageKeepsIndices(slots[0], sorted, bucket, pages[0], fix);
      IndicesAppend(bucket, Grouping.Buckets(entries, PageOf, pages[1..]));
    }
  }

  lemma {:induction false} BoxedIsFaithful(blocks: seq<OcrBlock>)
    ensures forall e | e in Boxed(blocks) :: IsBlock(e, blocks)
  {
    if blocks == [] {
    } else {
      BoxedIsFaithful(blocks[..|blocks| - 1]);
    }
  }

  lemma {:induction false} BoxedIndices(blocks: seq<OcrBlock>, x: nat)
    ensures multiset(Indices(Boxed(blocks)))[x] == (if x < |blocks| && blocks[x].bbox.Some? then 1 else 0)
  {
    if blocks == [] {
    } else {
      var front, last := blocks[..|blocks| - 1], blocks[|blocks| - 1];
      BoxedIndices(front, x);
      match last.bbox {
        case None =>
          assert Boxed(blocks) == Boxed(front);
        case Some(box) =>
          var e := Entry(last.text, last.page, box, |blocks| - 1);
          IndicesAppend(Boxed(front), [e]);
          assert Indices([e]) == [|blocks| - 1];
      }
    }
  }

  /** Every block with a box ends up in exactly one merged block, and nothing else does. */
  lemma {:induction false} MergingPartitionsTheBoxedBlocks(blocks: seq<OcrBlock>, slots: seq<seq<Slot>>, fix: string -> string)
    requires PagesMerged(slots, Grouping.Keys(Boxed(blocks), PageOf), Boxed(blocks))
    ensures var result := CollectPages(slots, Grouping.Keys(Boxed(blocks), PageOf), fix);
      forall x: nat :: multiset(AllIndices(result))[x] == (if x < |blocks| && blocks[x].bbox.Some? then 1 else 0)
  {
    var entries := Boxed(blocks);
    var pages := Grouping.Keys(entries, PageOf);
    PagesKeepIndices(slots, pages, entries, fix);
    Grouping.BucketsPermute(entries, PageOf);
    IndicesRespectPermutation(Grouping.Buckets(entries, PageOf, pages), entries);
    forall x: nat
      ensures multiset(Indices(entries))[x] == (if x < |blocks| && blocks[x].bbox.Some? then 1 else 0)
    {
      BoxedIndices(blocks, x);
    }
  }

  // ----- faithfulness and the fixed point

  lemma {:induction false} EmittedFrom(slots: seq<Slot>, page: int, fix: string -> string, r: MergedBlock) returns (i: nat)
    requires r in Collect(slots, page, fix)
    ensures i < |slots| && slots[i].Some?
    ensures r == Block(slots[i].value, page).(text := fix(Block(slots[i].value, page).text))
  {
    if r in Emit(slots[0], page, fix) {
      i := 0;
    } else {
      i := EmittedFrom(slots[1..], page, fix, r);
      i := i + 1;
    }
  }

  lemma {:induction false} LeavesAreEntries(slots: seq<Slot>, i: nat)
    requires i < |slots| && slots[i].Some?
    ensures forall e | e in Leaves(slots[i].value) :: e in AllLeaves(slots)
  {
    SplitOffSlot(slots, i);
    forall e | e in Leaves(slots[i].value) ensures e in AllLeaves(slots) {
      assert e in SlotLeaves(slots[i]);
    }
  }

  lemma {:induction false} CollectIsSettled(slots: seq<Slot>, page: int, fix: string -> string)
    requires Settled(slots)
    ensures var result := Collect(slots, page, fix);
      forall i, j | 0 <= i < j < |result| :: !ShouldMerge(result[i].box, result[j].box)
  {
    if slots == [] {
    } else {
      var rest := Collect(slots[1..], page, fix);
      assert Settled(slots[1..]);
      CollectIsSettled(slots[1..], page, fix);
      if slots[0].Some? {
        forall j | 0 <= j < |rest| ensures !ShouldMerge(Block(slots[0].value, page).box, rest[j].box) {
          var k := EmittedFrom(slots[1..], page, fix, rest[j]);
          assert Apart(slots[0], slots[k + 1]);
          BlockCarriesItsMembers(slots[0].value, page);
          BlockCarriesItsMembers(slots[k + 1].value, page);
        }
      }
    }
  }

  /** `r` carries some boxed blocks of the document, all of them on its own page. */
  ghost predicate Faithful(r: MergedBlock, entries: seq<Entry>) {
    exists members :: Carries(r, members) && forall m | m in members :: m in entries && m.page == r.page
  }

  /** The member is the block of the document at its index, with its text and box. */
  ghost predicate IsBlock(m: Entry, blocks: seq<OcrBlock>) {
    m.originalIndex < |blocks| && blocks[m.originalIndex] == OcrBlock(m.text, m.page, Some(m.box))
  }

  /** `r` carries some blocks of the document, each with the box it has there, all of them on its own page. */
  ghost predicate MergesBlocks(r: MergedBlock, blocks: seq<OcrBlock>) {
    exists members :: Carries(r, members) && forall m | m in members :: IsBlock(m, blocks) && m.page == r.page
  }

  lemma {:induction false} FaithfulToBlocks(r: MergedBlock, blocks: seq<OcrBlock>)
    requires Faithful(r, Boxed(blocks))
    ensures MergesBlocks(r, blocks)
  {
    var members :| Carries(r, members) && forall m | m in members :: m in Boxed(blocks) && m.page == r.page;
    BoxedIsFaithful(blocks);
    assert forall m | m in members :: IsBlock(m, blocks);
  }

  lemma {:induction false} SlotIsFaithful(slots: seq<Slot>, i: nat, sorted: seq<Entry>, entries: seq<Entry>, page: int, r: MergedBlock)
    requires MergingOf(slots, sorted) && multiset(sorted) == multiset(Grouping.Bucket(entries, PageOf, page))
    requires i < |slots| && slots[i].Some? && r.page == page
    requires r.blockIndices == Block(slots[i].value, page).blockIndices && r.box == Block(slots[i].value, page).box
    ensures Faithful(r, entries)
  {
    var members := Leaves(slots[i].value);
    LeavesAreEntries(slots, i);
    Grouping.BucketMembers(entries, PageOf, page);
    var bucket := Grouping.Bucket(entries, PageOf, page);
    forall m | m in members ensures m in entries && m.page == page {
      assert m in multiset(sorted);
      assert m in multiset(bucket);
      assert m in bucket;
      assert PageOf(m) == page;
    }
    BlockCarriesItsMembers(slots[i].value, page);
    assert Carries(r, members);
  }

  lemma {:induction false} PageIsFaithful(slots: seq<Slot>, entries: seq<Entry>, page: int, fix: string -> string, r: MergedBlock)
    requires PageMerged(slots, Grouping.Bucket(entries, PageOf, page)) && r in Collect(slots, page, fix)
    ensures r.page == page && Faithful(r, entries)
  {
    var i := EmittedFrom(slots, page, fix, r);
    BlockCarriesItsMembers(slots[i].value, page);
    var sorted :| multiset(sorted) == multiset(Grouping.Bucket(entries, PageOf, page)) && MergingOf(slots, sorted);
    SlotIsFaithful(slots, i, sorted, entries, page, r);
  }

  /** No two merged blocks of one page should still merge. */
  ghost predicate FixedPoint(result: seq<MergedBlock>) {
    forall i, j | 0 <= i < j < |result| && result[i].page == result[j].page :: !ShouldMerge(result[i].box, result[j].box)
  }

  lemma {:induction false} FixedPointOfConcat(a: seq<MergedBlock>, b: seq<MergedBlock>)
    requires FixedPoint(a) && FixedPoint(b)
    requires forall i, j | 0 <= i < |a| && 0 <= j < |b| :: a[i].page != b[j].page
    ensures FixedPoint(a + b)
  {
    var result := a + b;
    forall i, j | 0 <= i < |a| <= j < |result| ensures result[i].page != result[j].page {
      assert result[i] == a[i] && result[j] == b[j - |a|];
    }
    forall i, j | 0 <= i < j < |result| && result[i].page == result[j].page
      ensures !ShouldMerge(result[i].box, result[j].box)
    {
      if j < |a| {
        assert result[i] == a[i] && result[j] == a[j];
      } else if |a| <= i {
        assert result[i] == b[i - |a|] && result[j] == b[j - |a|];
      }
    }
  }

  /** Every merged block carries, with their exact hull and sorted indices, blocks of its own page only. */
  lemma {:induction false} PagesNeverMix(slots: seq<seq<Slot>>, pages: seq<int>, entries: seq<Entry>, fix: string -> string, r: MergedBlock)
    requires PagesMerged(slots, pages, entries) && r in CollectPages(slots, pages, fix)
    ensures r.page in pages && Faithful(r, entries)
  {
    if r in Collect(slots[0], pages[0], fix) {
      assert PageMerged(slots[0], Grouping.Bucket(entries, PageOf, pages[0]));
      PageIsFaithful(slots[0], entries, pages[0], fix, r);
    } else {
      PagesNeverMix(slots[1..], pages[1..], entries, fix, r);
    }
  }

  lemma {:induction false} FirstAndRestMerged(slots: seq<seq<Slot>>, pages: seq<int>, entries: seq<Entry>)
    requires PagesMerged(slots, pages, entries) && slots != [] && Grouping.Distinct(pages)
    ensures PageMerged(slots[0], Grouping.Bucket(entries, PageOf, pages[0]))
    ensures PagesMerged(slots[1..], pages[1..], entries) && Grouping.Distinct(pages[1..]) && pages[0] !in pages[1..]
  {
  }

  lemma {:induction false} PageIsFixed(slots: seq<Slot>, page: int, fix: string -> string)
    requires Settled(slots)
    ensures FixedPoint(Collect(slots, page, fix))
  {
    CollectIsSettled(slots, page, fix);
  }

  lemma {:induction false} OtherPagesDiffer(slots: seq<seq<Slot>>, pages: seq<int>, entries: seq<Entry>, fix: string -> string,
                                            r: MergedBlock, q: MergedBlock)
    requires PagesMerged(slots, pages, entries) && slots != [] && Grouping.Distinct(pages)
    requires r in Collect(slots[0], pages[0], fix) && q in CollectPages(slots[1..], pages[1..], fix)
    ensures r.page != q.page
  {
    FirstAndRestMerged(slots, pages, entries);
    PageIsFaithful(slots[0], entries, pages[0], fix, r);
    PagesNeverMix(slots[1..], pages[1..], entries, fix, q);
  }

  lemma {:induction false} MergingReachesAFixedPoint(slots: seq<seq<Slot>>, pages: seq<int>, entries: seq<Entry>, fix: string -> string)
    requires PagesMerged(slots, pages, entries) && Grouping.Distinct(pages)
    ensures FixedPoint(CollectPages(slots, pages, fix))
  {
    if slots != [] {
      var first, rest := Collect(slots[0], pages[0], fix), CollectPages(slots[1..], pages[1..], fix);
      FirstAndRestMerged(slots, pages, entries);
      MergingReachesAFixedPoint(slots[1..], pages[1..], entries, fix);
      PageIsFixed(slots[0], pages[0], fix);
      forall i, j | 0 <= i < |first| && 0 <= j < |rest| ensures first[i].page != rest[j].page {
        OtherPagesDiffer(slots, pages, entries, fix, first[i], rest[j]);
      }
      FixedPointOfConcat(first, rest);
    }
  }
}
