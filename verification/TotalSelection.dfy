/**
 The choice of the invoice total among candidates (selection_heuristics.py), and the merge of a
 selection into the current fields (payload_normalization.py).
 */
module TotalSelection {
  import opened Wrappers
  import Sorting

  datatype Mode = Strict | Relaxed

  // ----- choosing a total

  /** A candidate value, and whether its digits appear in a block near the bottom right of a page. */
  datatype Candidate = Candidate(value: int, bottomRight: bool)

  function Score(c: Candidate): real {
    if c.bottomRight then c.value as real * 1.05 else c.value as real
  }

  /** Tuples (score, value) in descending order. */
  predicate RanksBefore(a: Candidate, b: Candidate) {
    Score(a) > Score(b) || (Score(a) == Score(b) && a.value >= b.value)
  }

  function Positive(values: seq<Option<int>>, isBottomRight: int -> bool): seq<Candidate> {
    if values == [] then []
    else
      var n := |values| - 1;
      Positive(values[..n], isBottomRight)
      + (if values[n].Some? && values[n].value > 0 then [Candidate(values[n].value, isBottomRight(values[n].value))] else [])
  }

  function Abs(x: int): nat {
    if x < 0 then 0 - x else x
  }

  /** The larger of 100 and five per cent, rounded down. */
  function Slack(current: int): int {
    if current / 20 > 100 then current / 20 else 100
  }

  /** In strict mode a choice too far from a positive current total is reverted. */
  function Guarded(candidate: int, mode: Mode, current: Option<int>): int {
    if mode.Strict? && current.Some? && current.value > 0 && Abs(candidate - current.value) > Slack(current.value)
    then current.value else candidate
  }

  /** `values` are the parsed candidates, `None` where a candidate does not parse. */
  method PickTotalAmount(values: seq<Option<int>>, isBottomRight: int -> bool, mode: Mode, current: Option<int>)
    returns (total: Option<int>, ghost choice: Option<Candidate>)
    ensures total.None? <==> forall i | 0 <= i < |values| :: values[i].None? || values[i].value <= 0
    ensures choice.None? <==> total.None?
    ensures choice.Some? ==> IsBest(choice.value, Positive(values, isBottomRight))
    ensures choice.Some? ==> total == Some(Guarded(choice.value.value, mode, current))
    ensures total.Some? && total != current ==> total in values && NearlyLargest(total.value, values)
    ensures total.Some? && mode.Strict? && current.Some? && current.value > 0 ==>
      Abs(total.value - current.value) <= 100 || 20 * Abs(total.value - current.value) <= current.value
  {
    var weighted: seq<Candidate> := [];
    for i := 0 to |values|
      invariant weighted == Positive(values[..i], isBottomRight)
    {
      assert values[..i + 1][..i] == values[..i];
      if values[i].Some? && values[i].value > 0 {
        weighted := weighted + [Candidate(values[i].value, isBottomRight(values[i].value))];
      }
    }
    assert values[..|values|] == values;
    PositiveMembers(values, isBottomRight);
    if weighted == [] {
      return None, None;
    }
    var ranked := Sorting.StableSort(weighted, RanksBefore);
    FirstRankedIsBest(weighted);
    choice := Some(ranked[0]);
    total := Some(Guarded(ranked[0].value, mode, current));
    forall i | 0 <= i < |values| && values[i].Some? && values[i].value > 0
      ensures ranked[0].value as real * 1.05 >= values[i].value as real
    {
      BestIsNearTheLargest(ranked[0], values, isBottomRight, i);
    }
  }

  ghost predicate NearlyLargest(total: int, values: seq<Option<int>>) {
    forall i | 0 <= i < |values| && values[i].Some? && values[i].value > 0 :: total as real * 1.05 >= values[i].value as real
  }

  /** No candidate has a higher score, and none of the same score is larger. */
  ghost predicate IsBest(c: Candidate, candidates: seq<Candidate>) {
    c in candidates && forall d | d in candidates :: RanksBefore(c, d)
  }

  lemma {:induction false} PositiveMembers(values: seq<Option<int>>, isBottomRight: int -> bool)
    ensures forall c | c in Positive(values, isBottomRight) ::
      c.value > 0 && Some(c.value) in values && c.bottomRight == isBottomRight(c.value)
    ensures forall i | 0 <= i < |values| && values[i].Some? && values[i].value > 0 ::
      Candidate(values[i].value, isBottomRight(values[i].value)) in Positive(values, isBottomRight)
  {
    if values != [] {
      var n := |values| - 1;
      PositiveMembers(values[..n], isBottomRight);
      assert values == values[..n] + [values[n]];
    }
  }

  lemma {:induction false} RankingIsTotal()
    ensures Sorting.TotalPreorder(RanksBefore)
  {
  }

  lemma {:induction false} FirstRankedIsBest(candidates: seq<Candidate>)
    requires candidates != []
    ensures var ranked := Sorting.StableSort(candidates, RanksBefore);
      ranked != [] && IsBest(ranked[0], candidates)
  {
    var ranked := Sorting.StableSort(candidates, RanksBefore);
    RankingIsTotal();
    Sorting.StableSortSorts(candidates, RanksBefore);
    Sorting.StableSortPermutes(candidates, RanksBefore);
    Sorting.SameElements(ranked, candidates, ranked[0]);
    forall d | d in candidates ensures RanksBefore(ranked[0], d) {
      Sorting.SameElements(ranked, candidates, d);
      var i :| 0 <= i < |ranked| && ranked[i] == d;
      if i > 0 { assert RanksBefore(ranked[0], ranked[i]); }
    }
  }

  /** The unreverted choice is within five per cent of every positive candidate above it. */
  lemma {:induction false} BestIsNearTheLargest(best: Candidate, values: seq<Option<int>>, isBottomRight: int -> bool, i: nat)
    requires IsBest(best, Positive(values, isBottomRight))
    requires i < |values| && values[i].Some? && values[i].value > 0
    ensures best.value > 0 && best.value as real * 1.05 >= values[i].value as real
    ensures isBottomRight(values[i].value) == best.bottomRight ==> best.value >= values[i].value
  {
    PositiveMembers(values, isBottomRight);
    var c := Candidate(values[i].value, isBottomRight(values[i].value));
    assert RanksBefore(best, c);
  }

  /**
   A candidate near the bottom right wins if and only if, times 1.05, one of them exceeds every candidate
   that is not; among candidates alike the largest wins.
   */
  lemma {:induction false} BonusDecides(best: Candidate, candidates: seq<Candidate>)
    requires IsBest(best, candidates) && forall c | c in candidates :: c.value > 0
    ensures best.bottomRight <==>
      exists c | c in candidates && c.bottomRight :: forall d | d in candidates && !d.bottomRight :: c.value as real * 1.05 > d.value as real
    ensures forall c | c in candidates && c.bottomRight == best.bottomRight :: c.value <= best.value
  {
    if best.bottomRight {
      forall d | d in candidates && !d.bottomRight ensures best.value as real * 1.05 > d.value as real {
        BonusBeats(best, d, candidates);
      }
    }
    forall c | c in candidates && c.bottomRight == best.bottomRight ensures c.value <= best.value {
      assert RanksBefore(best, c);
    }
    if exists c | c in candidates && c.bottomRight :: forall d | d in candidates && !d.bottomRight :: c.value as real * 1.05 > d.value as real {
      var c :| c in candidates && c.bottomRight && forall d | d in candidates && !d.bottomRight :: c.value as real * 1.05 > d.value as real;
      assert RanksBefore(best, c);
    }
  }

  lemma {:induction false} BonusBeats(best: Candidate, d: Candidate, candidates: seq<Candidate>)
    requires IsBest(best, candidates) && d in candidates && best.bottomRight && !d.bottomRight && best.value > 0
    ensures best.value as real * 1.05 > d.value as real
  {
    assert RanksBefore(best, d);
  }

  /**
   With a positive current total, the strict result is the choice when that is within 100 or a twentieth of
   the total, and the current total otherwise.
   */
  lemma {:induction false} StrictResultIsNear(candidate: int, current: int)
    requires current > 0
    ensures var apart := Abs(candidate - current);
      Guarded(candidate, Strict, Some(current)) == if apart <= 100 || 20 * apart <= current then candidate else current
    ensures Guarded(candidate, Relaxed, Some(current)) == Guarded(candidate, Strict, None) == candidate
  {
  }

  // ----- merging the selection

  datatype Json = NoneValue | Str(s: string) | Integer(n: int) | Boolean(b: bool) | Other(tag: int)

  type Fields = map<string, Json>

  /** Python's `isinstance(value, int)` holds of booleans too. */
  function AsInt(v: Json): Option<int> {
    match v
    case Integer(n) => Some(n)
    case Boolean(b) => Some(if b then 1 else 0)
    case _ => None
  }

  predicate IsEmpty(v: Json) {
    v == NoneValue || v == Str("")
  }

  /** What strict mode keeps under a key that holds `current` when `value` is offered. */
  function Offered(key: string, current: Json, value: Json, looksLikeAddress: string -> bool): Json {
    if IsEmpty(current) then value
    else if key == "vendorName" && current.Str? && value.Str? then
      if looksLikeAddress(current.s) && !looksLikeAddress(value.s) then value else current
    else if key == "totalAmountMinor" && AsInt(current).Some? && AsInt(value).Some? then
      if AsInt(current).value <= 0 && AsInt(value).value > 0 then value else current
    else current
  }

  function Chosen(mode: Mode, key: string, current: Option<Json>, value: Json, looksLikeAddress: string -> bool): Json {
    if mode.Relaxed? || current.None? then value else Offered(key, current.value, value, looksLikeAddress)
  }

  function Get(fields: Fields, key: string): Option<Json> {
    if key in fields then Some(fields[key]) else None
  }

  /** The merge, key by key: no selected field depends on another. */
  function Merged(mode: Mode, current: Fields, selected: Fields, looksLikeAddress: string -> bool): Fields {
    map key | key in current.Keys + selected.Keys :: (
      if key in selected then Chosen(mode, key, Get(current, key), selected[key], looksLikeAddress)
      else current[key])
  }

  /** `items` are the fields in some dictionary order. */
  ghost predicate ListsItems(items: seq<(string, Json)>, fields: Fields) {
    && (forall i, j | 0 <= i < j < |items| :: items[i].0 != items[j].0)
    && (forall key | key in fields :: (key, fields[key]) in items)
    && (forall i | 0 <= i < |items| :: items[i].0 in fields && fields[items[i].0] == items[i].1)
  }

  /** `merged` after the first `i` items: those keys are chosen, the others are as they were. */
  ghost predicate MergedUpTo(merged: Fields, i: nat, mode: Mode, current: Fields, items: seq<(string, Json)>, looksLikeAddress: string -> bool)
    requires i <= |items|
  {
    && (forall j | 0 <= j < i ::
          Get(merged, items[j].0) == Some(Chosen(mode, items[j].0, Get(current, items[j].0), items[j].1, looksLikeAddress)))
    && (forall key | key !in Keys(items[..i]) :: Get(merged, key) == Get(current, key))
  }

  ghost function Keys(items: seq<(string, Json)>): set<string> {
    set item | item in items :: item.0
  }

  lemma {:induction false} MergeOneMore(before: Fields, after: Fields, i: nat, mode: Mode, current: Fields, items: seq<(string, Json)>, looksLikeAddress: string -> bool)
    requires i < |items| && forall j, k | 0 <= j < k < |items| :: items[j].0 != items[k].0
    requires MergedUpTo(before, i, mode, current, items, looksLikeAddress)
    requires after == before[items[i].0 := Chosen(mode, items[i].0, Get(before, items[i].0), items[i].1, looksLikeAddress)]
    ensures MergedUpTo(after, i + 1, mode, current, items, looksLikeAddress)
  {
    assert items[..i + 1] == items[..i] + [items[i]];
    assert items[i].0 !in Keys(items[..i]);
    forall j | 0 <= j < i ensures Get(after, items[j].0) == Get(before, items[j].0) {
      assert items[j].0 != items[i].0;
    }
    forall key | key !in Keys(items[..i + 1]) ensures Get(after, key) == Get(current, key) {
      assert items[i] in items[..i + 1];
      assert key !in Keys(items[..i]);
    }
  }

  lemma {:induction false} AllItemsMerged(merged: Fields, mode: Mode, current: Fields, items: seq<(string, Json)>, selected: Fields, looksLikeAddress: string -> bool)
    requires ListsItems(items, selected)
    requires MergedUpTo(merged, |items|, mode, current, items, looksLikeAddress)
    ensures merged == Merged(mode, current, selected, looksLikeAddress)
  {
    assert items[..|items|] == items;
    forall key: string
      ensures Get(merged, key) == Get(Merged(mode, current, selected, looksLikeAddress), key)
    {
      if key in selected {
        var j :| 0 <= j < |items| && items[j] == (key, selected[key]);
      } else {
        assert key !in Keys(items);
      }
    }
    SameGetSameFields(merged, Merged(mode, current, selected, looksLikeAddress));
  }

  lemma {:induction false} SameGetSameFields(a: Fields, b: Fields)
    requires forall key: string :: Get(a, key) == Get(b, key)
    ensures a == b
  {
    assert forall key :: key in a <==> Get(a, key).Some?;
    assert forall key :: key in b <==> Get(b, key).Some?;
    assert forall key | key in a :: a[key] == Get(a, key).value;
  }

  /** One field of the selection. */
  method ApplyField(mode: Mode, fields: Fields, key: string, value: Json, looksLikeAddress: string -> bool) returns (merged: Fields)
    ensures merged == fields[key := Chosen(mode, key, Get(fields, key), value, looksLikeAddress)]
  {
    merged := fields;
    if mode.Relaxed? {
      merged := merged[key := value];
    } else if key !in merged || IsEmpty(merged[key]) {
      merged := merged[key := value];
    } else if key == "vendorName" && merged[key].Str? && value.Str? {
      if looksLikeAddress(merged[key].s) && !looksLikeAddress(value.s) {
        merged := merged[key := value];
      }
    } else if key == "totalAmountMinor" && AsInt(merged[key]).Some? && AsInt(value).Some? {
      if AsInt(merged[key]).value <= 0 && AsInt(value).value > 0 {
        merged := merged[key := value];
      }
    }
  }

  /** `items` are the selected fields in dictionary order. */
  method ApplyMode(mode: Mode, current: Fields, items: seq<(string, Json)>, ghost selected: Fields, looksLikeAddress: string -> bool)
    returns (merged: Fields)
    requires ListsItems(items, selected)
    ensures merged == Merged(mode, current, selected, looksLikeAddress)
  {
    merged := current;
    for i := 0 to |items|
      invariant MergedUpTo(merged, i, mode, current, items, looksLikeAddress)
    {
      var next := ApplyField(mode, merged, items[i].0, items[i].1, looksLikeAddress);
      MergeOneMore(merged, next, i, mode, current, items, looksLikeAddress);
      merged := next;
    }
    AllItemsMerged(merged, mode, current, items, selected, looksLikeAddress);
  }

  lemma {:induction false} OfferedIsIdempotent(key: string, current: Json, value: Json, looksLikeAddress: string -> bool)
    ensures Offered(key, Offered(key, current, value, looksLikeAddress), value, looksLikeAddress)
         == Offered(key, current, value, looksLikeAddress)
    ensures Offered(key, value, value, looksLikeAddress) == value
  {
  }

  /** Merging the same selection twice is merging it once, in both modes. */
  lemma {:induction false} MergingIsIdempotent(mode: Mode, current: Fields, selected: Fields, looksLikeAddress: string -> bool)
    ensures var once := Merged(mode, current, selected, looksLikeAddress);
      Merged(mode, once, selected, looksLikeAddress) == once
  {
    var once := Merged(mode, current, selected, looksLikeAddress);
    if mode.Strict? {
      forall key | key in once ensures Merged(mode, once, selected, looksLikeAddress)[key] == once[key] {
        if key in selected {
          OfferedIsIdempotent(key, if key in current then current[key] else selected[key], selected[key], looksLikeAddress);
        }
      }
    }
  }

  /**
   A field strict mode changes was empty, or was a vendor that looks like an address and gave way to one
   that does not, or a total that was not positive and gave way to a positive one.
   */
  lemma {:induction false} StrictChangesOnly(current: Fields, selected: Fields, looksLikeAddress: string -> bool, key: string)
    requires key in current && Merged(Strict, current, selected, looksLikeAddress)[key] != current[key]
    ensures var before, after := current[key], Merged(Strict, current, selected, looksLikeAddress)[key];
      && key in selected && after == selected[key]
      && (|| IsEmpty(before)
          || (key == "vendorName" && before.Str? && after.Str? && looksLikeAddress(before.s) && !looksLikeAddress(after.s))
          || (key == "totalAmountMinor" && AsInt(before).Some? && AsInt(before).value <= 0
              && AsInt(after).Some? && AsInt(after).value > 0))
  {
  }

  /** Strict mode never drops a field, and never changes a positive total, whatever is selected. */
  lemma {:induction false} StrictKeepsPositiveTotal(current: Fields, selected: Fields, looksLikeAddress: string -> bool)
    requires "totalAmountMinor" in current && AsInt(current["totalAmountMinor"]).Some?
    requires AsInt(current["totalAmountMinor"]).value > 0
    ensures var merged := Merged(Strict, current, selected, looksLikeAddress);
      merged.Keys == current.Keys + selected.Keys && merged["totalAmountMinor"] == current["totalAmountMinor"]
  {
    assert "totalAmountMinor" != "vendorName";
  }

  /** The relaxed mode takes every selected field, and keeps the others. */
  lemma {:induction false} RelaxedSelectionWins(current: Fields, selected: Fields, looksLikeAddress: string -> bool, key: string)
    ensures Get(Merged(Relaxed, current, selected, looksLikeAddress), key) ==
      if key in selected then Some(selected[key]) else Get(current, key)
  {
  }

  /** The strict mode takes a selected field that is new or replaces an empty one, and keeps what is not selected. */
  lemma {:induction false} StrictFills(current: Fields, selected: Fields, looksLikeAddress: string -> bool, key: string)
    ensures key !in selected ==> Get(Merged(Strict, current, selected, looksLikeAddress), key) == Get(current, key)
    ensures key in selected && (key !in current || current[key] in {NoneValue, Str("")}) ==>
      Get(Merged(Strict, current, selected, looksLikeAddress), key) == Some(selected[key])
  {
  }

  /** It gives up an address for a vendor that is none. */
  lemma {:induction false} StrictCorrectsVendor(current: Fields, selected: Fields, looksLikeAddress: string -> bool)
    requires "vendorName" in current && current["vendorName"].Str? && looksLikeAddress(current["vendorName"].s)
    requires "vendorName" in selected && selected["vendorName"].Str? && !looksLikeAddress(selected["vendorName"].s)
    ensures Merged(Strict, current, selected, looksLikeAddress)["vendorName"] == selected["vendorName"]
  {
  }

  /** It gives up a total that is not positive for one that is. */
  lemma {:induction false} StrictCorrectsTotal(current: Fields, selected: Fields, looksLikeAddress: string -> bool)
    requires "totalAmountMinor" in current && current["totalAmountMinor"].Integer? && current["totalAmountMinor"].n <= 0
    requires "totalAmountMinor" in selected && selected["totalAmountMinor"].Integer? && selected["totalAmountMinor"].n > 0
    ensures Merged(Strict, current, selected, looksLikeAddress)["totalAmountMinor"] == selected["totalAmountMinor"]
  {
    assert "totalAmountMinor" != "vendorName";
  }
}
