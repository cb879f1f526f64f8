/** The latency histogram, and the order statistic it approximates. Latencies are whole microseconds. */
module LatencyStats {
  import opened Arithmetic

  const BUCKET_US := 25
  const BUCKETS := 2048
  const UINT32_MAX := 0xFFFF_FFFF

  function BucketOf(us: nat): (b: nat)
    ensures b < BUCKETS
  {
    if us / BUCKET_US >= BUCKETS then BUCKETS - 1 else us / BUCKET_US
  }

  function UpperEdge(b: nat): nat {
    (b + 1) * BUCKET_US
  }

  // ---- What a multiset of samples determines

  /** How many samples fall into bucket `b`. */
  function CountAt(samples: seq<nat>, b: nat): nat {
    if samples == [] then 0
    else CountAt(samples[..|samples| - 1], b) + if BucketOf(samples[|samples| - 1]) == b then 1 else 0
  }

  /** How many samples fall into the buckets below `b`. */
  function CountBelow(samples: seq<nat>, b: nat): nat {
    if b == 0 then 0 else CountBelow(samples, b - 1) + CountAt(samples, b - 1)
  }

  function Sum(samples: seq<nat>): nat {
    if samples == [] then 0 else Sum(samples[..|samples| - 1]) + samples[|samples| - 1]
  }

  ghost predicate Sorted(xs: seq<nat>) {
    forall i, j | 0 <= i < j < |xs| :: xs[i] <= xs[j]
  }

  /** `sorted` is the samples in ascending order. */
  ghost predicate Arranges(sorted: seq<nat>, samples: seq<nat>) {
    Sorted(sorted) && multiset(sorted) == multiset(samples)
  }

  function Clamp(pct: real): real {
    if pct < 0.0 then 0.0 else if 100.0 < pct then 100.0 else pct
  }

  function Target(pct: real, n: nat): real {
    Clamp(pct) / 100.0 * (n as real)
  }

  function Ceiling(t: real): int {
    -((-t).Floor)
  }

  /** Whether `target` samples have been seen by the end of bucket `b`. */
  predicate Reached(samples: seq<nat>, target: real, b: nat) {
    CountBelow(samples, b + 1) as real >= target
  }

  /** The first bucket from `b` up by which `target` samples have been seen. */
  function FirstReaching(samples: seq<nat>, target: real, b: nat): (r: nat)
    requires b <= BUCKETS
    ensures b <= r <= BUCKETS
    decreases BUCKETS - b
  {
    if b == BUCKETS || Reached(samples, target, b) then b
    else FirstReaching(samples, target, b + 1)
  }

  function PercentileOf(samples: seq<nat>, pct: real): nat {
    if samples == [] then 0 else UpperEdge(FirstReaching(samples, Target(pct, |samples|), 0))
  }

  // ---- Counting in sorted order

  lemma {:induction false} CountBelowSnoc(samples: seq<nat>, x: nat, b: nat)
    ensures CountBelow(samples + [x], b) == CountBelow(samples, b) + if BucketOf(x) < b then 1 else 0
  {
    if b > 0 {
      CountBelowSnoc(samples, x, b - 1);
      assert (samples + [x])[..|samples|] == samples;
    }
  }

  lemma {:induction false} NothingToCount(b: nat)
    ensures CountBelow([], b) == 0
  {
    if b > 0 {
      NothingToCount(b - 1);
    }
  }

  lemma {:induction false} CountBelowDrop(samples: seq<nat>, k: nat, b: nat)
    requires k < |samples|
    ensures
      CountBelow(samples, b)
      == CountBelow(samples[..k] + samples[k + 1..], b) + if BucketOf(samples[k]) < b then 1 else 0
    decreases |samples|
  {
    var last := |samples| - 1;
    var init := samples[..last];
    assert samples == init + [samples[last]];
    CountBelowSnoc(init, samples[last], b);
    if k < last {
      CountBelowDrop(init, k, b);
      var rest := init[..k] + init[k + 1..];
      CountBelowSnoc(rest, samples[last], b);
      assert samples[..k] + samples[k + 1..] == rest + [samples[last]];
    } else {
      assert samples[..k] + samples[k + 1..] == init;
    }
  }

  /** Only the multiset matters. */
  lemma {:induction false} CountBelowPermuted(xs: seq<nat>, ys: seq<nat>, b: nat)
    requires multiset(xs) == multiset(ys)
    ensures CountBelow(xs, b) == CountBelow(ys, b)
    decreases |xs|
  {
    if xs == [] {
      assert |multiset(ys)| == 0;
      assert ys == [];
    } else {
      var last := |xs| - 1;
      var x := xs[last];
      assert x in multiset(ys);
      var k :| 0 <= k < |ys| && ys[k] == x;
      TakeOut(xs, last);
      TakeOut(ys, k);
      CountBelowPermuted(xs[..last] + xs[last + 1..], ys[..k] + ys[k + 1..], b);
      CountBelowDrop(xs, last, b);
      CountBelowDrop(ys, k, b);
    }
  }

  lemma TakeOut(xs: seq<nat>, k: nat)
    requires k < |xs|
    ensures multiset(xs[..k] + xs[k + 1..]) == multiset(xs) - multiset{xs[k]}
  {
    assert xs == xs[..k] + [xs[k]] + xs[k + 1..];
  }

  lemma BucketMonotone(x: nat, y: nat)
    requires x <= y
    ensures BucketOf(x) <= BucketOf(y)
  {
    QuotientMonotone(x, y, BUCKET_US);
  }

  /** In sorted order, more than j samples lie in the buckets below b exactly when sample j does. */
  lemma {:induction false} SortedCount(xs: seq<nat>, b: nat, j: nat)
    requires Sorted(xs) && j < |xs|
    ensures CountBelow(xs, b) <= |xs|
    ensures CountBelow(xs, b) > j <==> BucketOf(xs[j]) < b
    decreases |xs|
  {
    var last := |xs| - 1;
    var init := xs[..last];
    assert xs == init + [xs[last]];
    CountBelowSnoc(init, xs[last], b);
    NothingToCount(b);
    BucketMonotone(xs[j], xs[last]);
    if last > 0 {
      BucketMonotone(xs[last - 1], xs[last]);
      SortedCount(init, b, if j < last then j else last - 1);
    }
  }

  // ---- The percentile

  lemma CeilingBounds(t: real, c: int)
    ensures c as real >= t <==> c >= Ceiling(t)
  {
  }

  lemma TargetRange(pct: real, n: nat)
    ensures 0.0 <= Target(pct, n) <= n as real
    ensures 0.0 < pct && 0 < n ==> 0.0 < Target(pct, n)
  {
    var share := Clamp(pct) / 100.0;
    assert 0.0 <= share <= 1.0;
    assert 0.0 <= share * (n as real);
    assert 0.0 <= (1.0 - share) * (n as real);
  }

  /** The target is pct hundredths of the count, with percentages beyond either end counting as that end. */
  lemma TargetIs(pct: real, n: nat)
    ensures 0.0 <= pct <= 100.0 ==> Target(pct, n) * 100.0 == pct * n as real
    ensures pct < 0.0 ==> Target(pct, n) == 0.0
    ensures pct > 100.0 ==> Target(pct, n) == n as real
  {
    var share := Clamp(pct) / 100.0;
    assert share * 100.0 == Clamp(pct);
    assert share * n as real * 100.0 == share * 100.0 * n as real;
  }

  lemma {:induction false} FirstReachingIs(samples: seq<nat>, target: real, b: nat, goal: nat)
    requires b <= goal < BUCKETS
    requires Reached(samples, target, goal) && forall c: nat | b <= c < goal :: !Reached(samples, target, c)
    ensures FirstReaching(samples, target, b) == goal
    decreases goal - b
  {
    if b < goal {
      FirstReachingIs(samples, target, b + 1, goal);
    }
  }

  /**
   * The histogram answers with the upper edge of the bucket of the order statistic: with k = ceil(pct * n / 100),
   * that of the k-th smallest sample; a percentile of 0 or less answers with the first bucket.
   */
  lemma PercentileIsOrderStatistic(samples: seq<nat>, sorted: seq<nat>, pct: real)
    requires samples != [] && Arranges(sorted, samples)
    ensures |sorted| == |samples|
    ensures
      var k := Ceiling(Target(pct, |samples|));
      && 0 <= k <= |samples| && (0.0 < pct ==> 1 <= k)
      && PercentileOf(samples, pct)
         == if k == 0 then 25 else 25 * ((if sorted[k - 1] / 25 < 2047 then sorted[k - 1] / 25 else 2047) + 1)
  {
    assert |multiset(sorted)| == |multiset(samples)|;
    var n, target := |samples|, Target(pct, |samples|);
    var k := Ceiling(target);
    TargetRange(pct, n);
    CeilingBounds(target, 0);
    CeilingBounds(target, n);
    var goal := if k <= 0 then 0 else BucketOf(sorted[k - 1]);
    forall c: nat | c <= goal ensures Reached(samples, target, c) <==> c == goal {
      CountBelowPermuted(samples, sorted, c + 1);
      CeilingBounds(target, CountBelow(samples, c + 1));
      if k > 0 {
        SortedCount(sorted, c + 1, k - 1);
      }
    }
    FirstReachingIs(samples, target, 0, goal);
  }

  /** With at least one sample the scan stops inside the buckets. */
  lemma ScanStops(samples: seq<nat>, pct: real)
    requires samples != []
    ensures CountBelow(samples, BUCKETS) == |samples|
    ensures CountBelow(samples, BUCKETS) as real >= Target(pct, |samples|)
  {
    AllAreCounted(samples);
    TargetRange(pct, |samples|);
  }

  lemma {:induction false} AllAreCounted(samples: seq<nat>)
    ensures CountBelow(samples, BUCKETS) == |samples|
  {
    if samples == [] {
      NothingToCount(BUCKETS);
    } else {
      var last := |samples| - 1;
      AllAreCounted(samples[..last]);
      CountBelowSnoc(samples[..last], samples[last], BUCKETS);
      assert samples == samples[..last] + [samples[last]];
    }
  }

  lemma ScanStep(samples: seq<nat>, target: real, b: nat)
    requires b < BUCKETS
    ensures CountBelow(samples, b + 1) == CountBelow(samples, b) + CountAt(samples, b)
    ensures
      FirstReaching(samples, target, b)
      == if CountBelow(samples, b + 1) as real >= target then b else FirstReaching(samples, target, b + 1)
  {
  }

  lemma TargetMonotone(p: real, q: real, n: nat)
    requires p <= q
    ensures Target(p, n) <= Target(q, n)
  {
    var d := Clamp(q) / 100.0 - Clamp(p) / 100.0;
    assert d >= 0.0;
    assert d * (n as real) >= 0.0;
  }

  lemma {:induction false} FirstReachingMonotone(samples: seq<nat>, t: real, u: real, b: nat)
    requires t <= u && b <= BUCKETS
    ensures FirstReaching(samples, t, b) <= FirstReaching(samples, u, b)
    decreases BUCKETS - b
  {
    if b < BUCKETS && !Reached(samples, u, b) {
      FirstReachingMonotone(samples, t, u, b + 1);
    }
  }

  lemma PercentileMonotone(samples: seq<nat>, p: real, q: real)
    requires p <= q
    ensures PercentileOf(samples, p) <= PercentileOf(samples, q)
  {
    TargetMonotone(p, q, |samples|);
    FirstReachingMonotone(samples, Target(p, |samples|), Target(q, |samples|), 0);
  }

  /** The answer is within one bucket above the exact order statistic, unless that lies beyond the last bucket. */
  lemma PercentileResolution(samples: seq<nat>, sorted: seq<nat>, pct: real)
    requires samples != [] && Arranges(sorted, samples) && 0.0 < pct
    ensures |sorted| == |samples| && 1 <= Ceiling(Target(pct, |samples|)) <= |samples|
    ensures
      var exact := sorted[Ceiling(Target(pct, |samples|)) - 1];
      if exact < 51200 then exact < PercentileOf(samples, pct) <= exact + 25 else PercentileOf(samples, pct) == 51200
  {
    PercentileIsOrderStatistic(samples, sorted, pct);
  }

  // ---- Extremes and mean

  ghost predicate IsMin(m: nat, samples: seq<nat>) {
    m in samples && forall x | x in samples :: m <= x
  }

  ghost predicate IsMax(m: nat, samples: seq<nat>) {
    m in samples && forall x | x in samples :: x <= m
  }

  lemma {:induction false} SumBounds(samples: seq<nat>, lo: nat, hi: nat)
    requires forall i | 0 <= i < |samples| :: lo <= samples[i] <= hi
    ensures |samples| * lo <= Sum(samples) <= |samples| * hi
  {
    if samples != [] {
      var last := |samples| - 1;
      SumBounds(samples[..last], lo, hi);
      MulSucc(last, lo);
      MulSucc(last, hi);
    }
  }

  lemma MeanBetween(samples: seq<nat>, lo: nat, hi: nat)
    requires IsMin(lo, samples) && IsMax(hi, samples)
    ensures lo <= Sum(samples) / |samples| <= hi
  {
    var n := |samples|;
    assert forall i | 0 <= i < n :: samples[i] in samples;
    SumBounds(samples, lo, hi);
    DivMod(n * lo, n, lo, 0);
    DivMod(n * hi, n, hi, 0);
    QuotientMonotone(n * lo, Sum(samples), n);
    QuotientMonotone(Sum(samples), n * hi, n);
  }

  // ---- The fields and the samples they stand for

  ghost predicate Tallied(cells: seq<nat>, samples: seq<nat>) {
    |cells| == BUCKETS && forall b: nat | b < BUCKETS :: cells[b] == CountAt(samples, b)
  }

  ghost predicate Summarised(count: nat, sum: nat, min: nat, max: nat, samples: seq<nat>) {
    && (forall x | x in samples :: x <= UINT32_MAX)
    && count == |samples| && sum == Sum(samples)
    && if samples == [] then min == UINT32_MAX && max == 0 else IsMin(min, samples) && IsMax(max, samples)
  }

  lemma TallyOneMore(cells: seq<nat>, samples: seq<nat>, us: nat)
    requires Tallied(cells, samples)
    ensures Tallied(cells[BucketOf(us) := cells[BucketOf(us)] + 1], samples + [us])
  {
    assert (samples + [us])[..|samples|] == samples;
  }

  lemma SummariseOneMore(count: nat, sum: nat, min: nat, max: nat, samples: seq<nat>, us: nat)
    requires Summarised(count, sum, min, max, samples) && us <= UINT32_MAX
    ensures Summarised(count + 1, sum + us, if us < min then us else min, if max < us then us else max, samples + [us])
  {
    assert (samples + [us])[..|samples|] == samples;
  }

  class Histogram {
    const buckets: array<nat>
    var count: nat
    var sum: nat
    var min: nat
    var max: nat
    ghost var samples: seq<nat>

    ghost predicate Valid()
      reads this, buckets
    {
      Tallied(buckets[..], samples) && Summarised(count, sum, min, max, samples)
    }

    constructor ()
      ensures Valid() && fresh(buckets) && samples == []
    {
      buckets := new nat[BUCKETS](_ => 0);
      count, sum, min, max, samples := 0, 0, UINT32_MAX, 0, [];
    }

    method Record(us: nat)
      requires Valid() && us <= 0xFFFF_FFFF
      modifies this, buckets
      ensures Valid() && samples == old(samples) + [us]
    {
      TallyOneMore(buckets[..], samples, us);
      SummariseOneMore(count, sum, min, max, samples, us);
      var b := BucketOf(us);
      buckets[b] := buckets[b] + 1;
      count, sum := count + 1, sum + us;
      min := if us < min then us else min;
      max := if max < us then us else max;
      samples := samples + [us];
      assert buckets[..] == old(buckets[..])[b := old(buckets[..])[b] + 1];
    }

    method Reset()
      requires Valid()
      modifies this, buckets
      ensures Valid() && samples == []
    {
      forall b | 0 <= b < BUCKETS {
        buckets[b] := 0;
      }
      count, sum, min, max, samples := 0, 0, UINT32_MAX, 0, [];
    }

    method Extremes() returns (least: nat, greatest: nat)
      requires Valid()
      ensures if samples == [] then least == greatest == 0 else IsMin(least, samples) && IsMax(greatest, samples)
    {
      least, greatest := if count > 0 then min else 0, max;
    }

    method Mean() returns (mean: nat)
      requires Valid()
      ensures mean == if samples == [] then 0 else Sum(samples) / |samples|
      ensures mean <= 0xFFFF_FFFF
    {
      if count == 0 {
        return 0;
      }
      MeanBetween(samples, min, max);
      mean := sum / count;
    }

    method Percentile(pct: real) returns (us: nat)
      requires Valid()
      ensures us == PercentileOf(samples, pct)
    {
      if count == 0 {
        return 0;
      }
      var target := Target(pct, count);
      ghost var goal := FirstReaching(samples, target, 0);
      var seen := 0;
      for b := 0 to BUCKETS
        invariant seen == CountBelow(samples, b)
        invariant FirstReaching(samples, target, b) == goal
        invariant b > 0 ==> !(seen as real >= target)
      {
        ScanStep(samples, target, b);
        seen := seen + buckets[b];
        if seen as real >= target {
          return (b + 1) * BUCKET_US;
        }
      }
      ScanStops(samples, pct);
      assert false;
    }
  }
}
