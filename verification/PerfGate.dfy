/**
 The performance gate (perfGate.ts): nearest-rank percentiles of measured times, and the decision
 to pass. Times are exact reals.
 */
module PerfGate {
  import opened Wrappers
  import Sorting

  datatype Status = Pass | Fail

  datatype GateError = TooFewSamples | InvalidArrayLength

  /** `mean` is `None` where the source divides zero by zero. */
  datatype Outcome = Outcome(p95: real, p99: real, mean: Option<real>, iterations: nat, status: Status)

  const DEFAULT_MIN_SAMPLES := 20

  function AtMost(): (real, real) -> bool {
    (a: real, b: real) => a <= b
  }

  /** The ceiling of `p` per cent of `n`. */
  function PercentOf(p: int, n: nat): int {
    (p * n + 99) / 100
  }

  /** How many of `n` samples must not exceed the percentile: at least one, at most all. */
  function Needed(p: int, n: nat): int {
    var k := PercentOf(p, n);
    var rank := if n - 1 < k - 1 then n - 1 else k - 1;
    (if 0 > rank then 0 else rank) + 1
  }

  function Percentile(sorted: seq<real>, p: int): real {
    if sorted == [] then 0.0 else sorted[Needed(p, |sorted|) - 1]
  }

  /** How many samples are within the budget. */
  function Within(samples: seq<real>, budget: real): (count: nat)
    ensures count <= |samples|
  {
    if samples == [] then 0 else (if samples[0] <= budget then 1 else 0) + Within(samples[1..], budget)
  }

  function Sum(samples: seq<real>): real {
    if samples == [] then 0.0 else samples[0] + Sum(samples[1..])
  }

  ghost predicate Ascending(s: seq<real>) {
    forall i, j | 0 <= i < j < |s| :: s[i] <= s[j]
  }

  // ----- counting

  /** In ascending samples the ones within the budget come first. */
  lemma {:induction false} KthWithinIffCount(s: seq<real>, k: nat, budget: real)
    requires Ascending(s) && 1 <= k <= |s|
    ensures s[k - 1] <= budget <==> Within(s, budget) >= k
  {
    if s[0] > budget {
      NoneWithin(s, budget);
    } else if k > 1 {
      KthWithinIffCount(s[1..], k - 1, budget);
    }
  }

  lemma {:induction false} NoneWithin(s: seq<real>, budget: real)
    requires forall i | 0 <= i < |s| :: s[i] > budget
    ensures Within(s, budget) == 0
  {
    if s != [] {
      NoneWithin(s[1..], budget);
    }
  }

  lemma {:induction false} WithinJoins(s: seq<real>, t: seq<real>, budget: real)
    ensures Within(s + t, budget) == Within(s, budget) + Within(t, budget)
  {
    if s == [] {
      assert s + t == t;
    } else {
      assert (s + t)[1..] == s[1..] + t;
      WithinJoins(s[1..], t, budget);
    }
  }

  lemma {:induction false} WithinIgnoresOrder(s: seq<real>, t: seq<real>, budget: real)
    requires multiset(s) == multiset(t)
    ensures Within(s, budget) == Within(t, budget)
    decreases |s|
  {
    if s == [] {
      assert |t| == |multiset(t)|;
    } else {
      var k := Sorting.MatchFirst(s, t);
      WithinIgnoresOrder(s[1..], t[..k] + t[k + 1..], budget);
      WithinJoins(t[..k], t[k + 1..], budget);
      WithinJoins(t[..k], t[k..], budget);
      assert t == t[..k] + t[k..];
      assert t[k..][1..] == t[k + 1..];
    }
  }

  lemma {:induction false} SumJoins(s: seq<real>, t: seq<real>)
    ensures Sum(s + t) == Sum(s) + Sum(t)
  {
    if s == [] {
      assert s + t == t;
    } else {
      assert (s + t)[1..] == s[1..] + t;
      SumJoins(s[1..], t);
    }
  }

  lemma {:induction false} SumIgnoresOrder(s: seq<real>, t: seq<real>)
    requires multiset(s) == multiset(t)
    ensures Sum(s) == Sum(t)
    decreases |s|
  {
    if s == [] {
      assert |t| == |multiset(t)|;
    } else {
      var k := Sorting.MatchFirst(s, t);
      SumIgnoresOrder(s[1..], t[..k] + t[k + 1..]);
      SumJoins(t[..k], t[k + 1..]);
      SumJoins(t[..k], t[k..]);
      assert t == t[..k] + t[k..];
      assert t[k..][1..] == t[k + 1..];
    }
  }

  lemma {:induction false} SortedCopy(samples: seq<real>)
    ensures var sorted := Sorting.StableSort(samples, AtMost());
      Ascending(sorted) && multiset(sorted) == multiset(samples) && |sorted| == |samples|
  {
    Sorting.StableSortSorts(samples, AtMost());
    Sorting.StableSortPermutes(samples, AtMost());
  }

  // ----- what a percentile means

  /** The percentile of a list of samples, as the gate takes it: of the sorted copy. */
  function PercentileOf(samples: seq<real>, p: int): real {
    Percentile(Sorting.StableSort(samples, AtMost()), p)
  }

  /** A percentile is within a budget exactly when enough of the unsorted samples are. */
  lemma {:induction false} PercentileCounts(samples: seq<real>, p: int, budget: real)
    requires samples != []
    ensures PercentileOf(samples, p) <= budget <==> Within(samples, budget) >= Needed(p, |samples|)
  {
    var sorted := Sorting.StableSort(samples, AtMost());
    SortedCopy(samples);
    KthWithinIffCount(sorted, Needed(p, |samples|), budget);
    WithinIgnoresOrder(sorted, samples, budget);
  }

  /** Nearest rank: the percentile is a sample, enough samples do not exceed it, and no smaller number has that. */
  lemma {:induction false} PercentileIsNearestRank(samples: seq<real>, p: int)
    requires samples != []
    ensures PercentileOf(samples, p) in samples
    ensures Within(samples, PercentileOf(samples, p)) >= Needed(p, |samples|)
    ensures forall b: real | b < PercentileOf(samples, p) :: Within(samples, b) < Needed(p, |samples|)
  {
    var v := PercentileOf(samples, p);
    SortedCopy(samples);
    Sorting.SameElements(Sorting.StableSort(samples, AtMost()), samples, v);
    PercentileCounts(samples, p, v);
    forall b: real | b < v ensures Within(samples, b) < Needed(p, |samples|) {
      PercentileCounts(samples, p, b);
    }
  }

  lemma {:induction false} ProductGrows(p: int, q: int, n: nat)
    requires p <= q
    ensures p * n <= q * n
  {
  }

  lemma {:induction false} NeededGrows(p: int, q: int, n: nat)
    requires p <= q
    ensures Needed(p, n) <= Needed(q, n)
    ensures n > 0 ==> 1 <= Needed(p, n) && Needed(q, n) <= n
  {
    ProductGrows(p, q, n);
  }

  /** The 95th percentile never exceeds the 99th, and likewise for any two. */
  lemma {:induction false} PercentilesAscend(samples: seq<real>, p: int, q: int)
    requires p <= q
    ensures PercentileOf(samples, p) <= PercentileOf(samples, q)
  {
    SortedCopy(samples);
    NeededGrows(p, q, |samples|);
    var sorted, i, j := Sorting.StableSort(samples, AtMost()), Needed(p, |samples|) - 1, Needed(q, |samples|) - 1;
    assert sorted != [] && i < j ==> sorted[i] <= sorted[j];
  }

  lemma {:induction false} PercentileIgnoresOrder(samples: seq<real>, shuffled: seq<real>, p: int)
    requires multiset(samples) == multiset(shuffled)
    ensures PercentileOf(samples, p) == PercentileOf(shuffled, p)
  {
    assert |samples| == |multiset(samples)| == |multiset(shuffled)| == |shuffled|;
    if samples != [] {
      var v, w := PercentileOf(samples, p), PercentileOf(shuffled, p);
      PercentileIsNearestRank(samples, p);
      PercentileIsNearestRank(shuffled, p);
      WithinIgnoresOrder(samples, shuffled, v);
      WithinIgnoresOrder(samples, shuffled, w);
    }
  }

  /** Between one and a hundred per cent, the bounds on the rank never apply. */
  lemma {:induction false} NeededIsAShare(p: int, n: nat, count: int)
    requires n >= 1 && 1 <= p <= 100
    ensures count >= Needed(p, n) <==> 100 * count >= p * n
  {
    assert 1 <= p * n <= 100 * n;
  }

  // ----- the gate

  function Samples(reading: nat -> real, n: nat): seq<real> {
    seq(n, i requires 0 <= i => reading(2 * i + 1) - reading(2 * i))
  }

  lemma {:induction false} OneMoreSample(reading: nat -> real, n: nat)
    ensures Samples(reading, n + 1) == Samples(reading, n) + [reading(2 * n + 1) - reading(2 * n)]
  {
  }

  /** `reading(k)` is what the clock shows at its k-th use; the warm-up does not use it. */
  method RunPerfGate(iterations: int, minSamples: Option<int>, budget: real, reading: nat -> real)
    returns (outcome: Result<Outcome, GateError>)
    ensures outcome == Failure(TooFewSamples) <==>
      iterations < (if minSamples.Some? then minSamples.value else 20)
    ensures outcome == Failure(InvalidArrayLength) <==>
      iterations < 0 && minSamples.Some? && minSamples.value <= iterations
    ensures outcome.Success? ==> iterations >= 0 && Meets(outcome.value, Samples(reading, iterations), budget)
  {
    var least := if minSamples.Some? then minSamples.value else DEFAULT_MIN_SAMPLES;
    if iterations < least {
      return Failure(TooFewSamples);
    }
    if iterations < 0 {
      return Failure(InvalidArrayLength);
    }
    var samples := new real[iterations];
    for i := 0 to iterations
      invariant samples[..i] == Samples(reading, i)
    {
      var start := reading(2 * i);
      samples[i] := reading(2 * i + 1) - start;
      assert samples[..i + 1] == samples[..i] + [reading(2 * i + 1) - start];
      OneMoreSample(reading, i);
    }
    assert samples[..iterations] == samples[..];
    var sorted := Sorting.StableSort(samples[..], AtMost());
    var p95, p99 := Percentile(sorted, 95), Percentile(sorted, 99);
    var mean := if iterations == 0 then None else Some(Sum(samples[..]) / iterations as real);
    var status := if p95 <= budget then Pass else Fail;
    outcome := Success(Outcome(p95, p99, mean, iterations, status));
    OutcomeMeets(outcome.value, samples[..], budget);
  }

  /** The outcome in terms of the samples as they were taken: passing is a count. */
  ghost predicate Meets(o: Outcome, samples: seq<real>, budget: real) {
    && o.iterations == |samples|
    && o.p95 == PercentileOf(samples, 95)
    && o.p99 == PercentileOf(samples, 99)
    && o.p95 <= o.p99
    && (samples != [] ==> o.mean == Some(Sum(samples) / |samples| as real))
    && (samples != [] ==> (o.status.Pass? <==> 100 * Within(samples, budget) >= 95 * |samples|))
    && (samples == [] ==> o.mean == None && (o.status.Pass? <==> budget >= 0.0))
  }

  lemma {:induction false} OutcomeMeets(o: Outcome, samples: seq<real>, budget: real)
    requires o.iterations == |samples|
    requires o.p95 == PercentileOf(samples, 95) && o.p99 == PercentileOf(samples, 99)
    requires o.mean == if samples == [] then None else Some(Sum(samples) / |samples| as real)
    requires o.status.Pass? <==> o.p95 <= budget
    ensures Meets(o, samples, budget)
  {
    PercentilesAscend(samples, 95, 99);
    if samples != [] {
      PercentileCounts(samples, 95, budget);
      NeededIsAShare(95, |samples|, Within(samples, budget));
    } else {
      assert PercentileOf([], 95) == 0.0;
    }
  }

  /** The verdict and the mean do not depend on the order of the samples. */
  lemma {:induction false} GateIgnoresOrder(o: Outcome, samples: seq<real>, shuffled: seq<real>, budget: real)
    requires multiset(samples) == multiset(shuffled) && Meets(o, samples, budget)
    ensures Meets(o, shuffled, budget)
  {
    assert |samples| == |multiset(samples)| == |multiset(shuffled)| == |shuffled|;
    PercentileIgnoresOrder(samples, shuffled, 95);
    PercentileIgnoresOrder(samples, shuffled, 99);
    SumIgnoresOrder(samples, shuffled);
    WithinIgnoresOrder(samples, shuffled, budget);
  }

  // ----- the samples

  lemma {:induction false} SumOfOne(x: real)
    ensures Sum([x]) == x
  {
    assert [x][1..] == [];
  }

  /** On a clock that never goes back no sample is negative, and together they fit between first and last reading. */
  lemma {:induction false} SamplesAreElapsed(reading: nat -> real, n: nat)
    requires forall i: nat, j: nat | i <= j :: reading(i) <= reading(j)
    ensures forall i | 0 <= i < n :: Samples(reading, n)[i] >= 0.0
    ensures Sum(Samples(reading, n)) <= reading(2 * n) - reading(0)
  {
    if n > 0 {
      SamplesAreElapsed(reading, n - 1);
      OneMoreSample(reading, n - 1);
      var last := reading(2 * n - 1) - reading(2 * n - 2);
      SumJoins(Samples(reading, n - 1), [last]);
      SumOfOne(last);
      assert reading(2 * n - 1) <= reading(2 * n);
    }
  }
}
