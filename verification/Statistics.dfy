// Aggregates of benchmark latencies over exact reals (src/bench/stats.rs:32-101).

module Statistics {
  import opened Reals
  import opened Words
  import opened Sorting

  datatype SampleStats = SampleStats(n: nat, mean: real, median: real, mad: real, relativeDispersion: real,
                                     min: real, max: real, p50: real, p95: real, p99: real)

  // f64::MAX
  const F64_MAX: real :=
    179769313486231570814527423731704356798070567525844996598917476803157260780028538760589558632766878171540458953514382464234321326889464182768467546703537516986049910576551282076245490090389328944075868508455133942304583236903222948165808559332123348274797826204144723168738177180919299881250404026184124858368.0

  function Sum(s: seq<real>): real {
    if s == [] then 0.0 else s[0] + Sum(s[1..])
  }

  function MedianOfSorted(sorted: seq<real>): real {
    var n := |sorted|;
    if n == 0 then 0.0
    else if n % 2 == 1 then sorted[n / 2]
    else (sorted[n / 2 - 1] + sorted[n / 2]) / 2.0
  }

  // Nearest rank: ceil(p / 100 * n), then a 0-based index.
  function PercentileIndex(n: nat, p: nat): nat
    requires n > 0
  {
    var rank := CeilDiv(p * n, 100);
    var idx := if rank == 0 then 0 else rank - 1;
    if idx < n - 1 then idx else n - 1
  }

  function PercentileNearestRank(sorted: seq<real>, p: nat): real {
    if |sorted| == 0 then 0.0 else sorted[PercentileIndex(|sorted|, p)]
  }

  function Deviations(s: seq<real>, center: real): (d: seq<real>)
    ensures |d| == |s|
  {
    seq(|s|, i requires 0 <= i < |s| => Abs(s[i] - center))
  }

  function Dispersion(mad: real, median: real): real {
    if Abs(median) > 0.000000000001 then mad / Abs(median)
    else if mad > 0.0 then F64_MAX
    else 0.0
  }

  // sample_stats on the sorted samples
  function SortedStats(sorted: seq<real>): SampleStats
    requires sorted != []
  {
    var n := |sorted|;
    var median := MedianOfSorted(sorted);
    var mad := MedianOfSorted(Sort(Deviations(sorted, median)));
    SampleStats(n, Sum(sorted) / n as real, median, mad, Dispersion(mad, median), sorted[0], sorted[n - 1],
                PercentileNearestRank(sorted, 50), PercentileNearestRank(sorted, 95), PercentileNearestRank(sorted, 99))
  }

  function Stats(samples: seq<real>): SampleStats {
    if samples == [] then SampleStats(0, 0.0, 0.0, 0.0, 0.0, 0.0, 0.0, 0.0, 0.0, 0.0)
    else SortedStats(Sort(samples))
  }

  // The order of the samples does not matter.
  lemma StatsIgnoreOrder(a: seq<real>, b: seq<real>)
    requires multiset(a) == multiset(b)
    ensures Stats(a) == Stats(b)
  {
    SortOfPermutation(a, b);
    assert |a| == |multiset(a)| && |b| == |multiset(b)|;
  }

  // ---- percentiles ----

  lemma RankBounds(n: nat, p: nat)
    requires n > 0 && 0 < p <= 100
    ensures
      var idx := PercentileIndex(n, p);
      idx < n && 100 * idx < p * n <= 100 * (idx + 1)
  {
    assert 0 < p * n <= 100 * n;
  }

  // The percentile is the smallest sample with at least p% of the samples at or below it.
  lemma PercentileIsSmallest(samples: seq<real>, p: nat, u: real)
    requires samples != [] && 0 < p <= 100
    ensures
      var v := PercentileNearestRank(Sort(samples), p);
      && v in samples
      && 100 * CountAtMost(samples, v) >= p * |samples|
      && (u < v ==> 100 * CountAtMost(samples, u) < p * |samples|)
  {
    var sorted := Sort(samples);
    var idx := PercentileIndex(|samples|, p);
    SortSorted(samples);
    RankBounds(|samples|, p);
    CountSorted(sorted, idx, sorted[idx]);
    CountSorted(sorted, idx, u);
    CountSort(samples, sorted[idx]);
    CountSort(samples, u);
    assert sorted[idx] in multiset(sorted);
  }

  lemma PercentileMonotone(n: nat, p: nat, q: nat)
    requires n > 0 && p <= q
    ensures PercentileIndex(n, p) <= PercentileIndex(n, q)
  {
    ProductMonotone(p, q, n);
    RankMonotone(p * n, q * n);
  }

  lemma ProductMonotone(p: nat, q: nat, n: nat)
    requires p <= q
    ensures p * n <= q * n
  {
  }

  lemma RankMonotone(a: nat, b: nat)
    requires a <= b
    ensures CeilDiv(a, 100) <= CeilDiv(b, 100)
  {
  }

  // min <= p50 <= p95 <= p99 <= max, and mean and median lie between min and max.
  lemma StatsOrdered(samples: seq<real>)
    requires samples != []
    ensures
      var s := Stats(samples);
      && s.min <= s.p50 <= s.p95 <= s.p99 <= s.max
      && s.min <= s.median <= s.max && s.min <= s.mean <= s.max
      && s.mad >= 0.0
  {
    var sorted := Sort(samples);
    SortSorted(samples);
    PercentilesOrdered(sorted);
    MedianBetween(sorted);
    MeanBetween(sorted);
    MadNonNegative(sorted, MedianOfSorted(sorted));
  }

  lemma PercentilesOrdered(sorted: seq<real>)
    requires Sorted(sorted) && sorted != []
    ensures sorted[0] <= PercentileNearestRank(sorted, 50) <= PercentileNearestRank(sorted, 95)
    ensures PercentileNearestRank(sorted, 95) <= PercentileNearestRank(sorted, 99) <= sorted[|sorted| - 1]
  {
    PercentileMonotone(|sorted|, 50, 95);
    PercentileMonotone(|sorted|, 95, 99);
  }

  lemma MadNonNegative(sorted: seq<real>, median: real)
    requires sorted != []
    ensures MedianOfSorted(Sort(Deviations(sorted, median))) >= 0.0
  {
    var deviations := Deviations(sorted, median);
    SortSorted(deviations);
    MedianBetween(Sort(deviations));
    LeastIsSample(deviations);
  }

  lemma LeastIsSample(s: seq<real>)
    requires s != []
    ensures exists i :: 0 <= i < |s| && Sort(s)[0] == s[i]
  {
    var least := Sort(s)[0];
    assert least in multiset(Sort(s));
    assert least in s;
  }

  lemma MedianBetween(sorted: seq<real>)
    requires Sorted(sorted) && sorted != []
    ensures sorted[0] <= MedianOfSorted(sorted) <= sorted[|sorted| - 1]
  {
    var n := |sorted|;
    assert sorted[0] <= sorted[n / 2] <= sorted[n - 1];
    if n % 2 == 0 {
      assert sorted[0] <= sorted[n / 2 - 1] <= sorted[n - 1];
    }
  }

  lemma {:induction false} SumBounds(s: seq<real>, lo: real, hi: real)
    requires forall i :: 0 <= i < |s| ==> lo <= s[i] <= hi
    ensures |s| as real * lo <= Sum(s) <= |s| as real * hi
  {
    if s != [] {
      SumBounds(s[1..], lo, hi);
    }
  }

  lemma MeanBetween(sorted: seq<real>)
    requires Sorted(sorted) && sorted != []
    ensures sorted[0] <= Sum(sorted) / |sorted| as real <= sorted[|sorted| - 1]
  {
    var lo, hi := sorted[0], sorted[|sorted| - 1];
    assert forall i :: 0 <= i < |sorted| ==> lo <= sorted[i] <= hi;
    SumBounds(sorted, lo, hi);
    QuotientBetween(Sum(sorted), |sorted| as real, lo, hi);
  }

  lemma QuotientBetween(sum: real, n: real, lo: real, hi: real)
    requires n > 0.0 && n * lo <= sum <= n * hi
    ensures lo <= sum / n <= hi
  {
    var q := sum / n;
    assert q * n == sum;
    assert q < lo ==> q * n < lo * n;
    assert q > hi ==> q * n > hi * n;
  }

  // ---- dispersion ----

  // At least half of a sorted sequence lies at or below its median.
  lemma MedianHalf(sorted: seq<real>)
    requires Sorted(sorted)
    ensures 2 * CountAtMost(sorted, MedianOfSorted(sorted)) >= |sorted|
  {
    var n := |sorted|;
    if n % 2 == 1 {
      CountSorted(sorted, n / 2, sorted[n / 2]);
    } else if n > 0 {
      assert sorted[n / 2 - 1] <= sorted[n / 2];
      CountSorted(sorted, n / 2 - 1, MedianOfSorted(sorted));
    }
  }

  // Number of samples within `radius` of `center`.
  function CountWithin(s: seq<real>, center: real, radius: real): (count: nat)
    ensures count <= |s|
  {
    if s == [] then 0 else (if Abs(s[0] - center) <= radius then 1 else 0) + CountWithin(s[1..], center, radius)
  }

  lemma {:induction false} WithinIsDeviation(s: seq<real>, center: real, radius: real)
    ensures CountWithin(s, center, radius) == CountAtMost(Deviations(s, center), radius)
  {
    if s != [] {
      WithinIsDeviation(s[1..], center, radius);
      assert Deviations(s, center)[1..] == Deviations(s[1..], center);
    }
  }

  lemma {:induction false} WithinInsert(x: real, s: seq<real>, center: real, radius: real)
    ensures CountWithin(Insert(x, s), center, radius)
         == CountWithin(s, center, radius) + if Abs(x - center) <= radius then 1 else 0
  {
    if s == [] || x <= s[0] {
      assert ([x] + s)[1..] == s;
    } else {
      WithinInsert(x, s[1..], center, radius);
      assert ([s[0]] + Insert(x, s[1..]))[1..] == Insert(x, s[1..]);
    }
  }

  lemma {:induction false} WithinSort(s: seq<real>, center: real, radius: real)
    ensures CountWithin(Sort(s), center, radius) == CountWithin(s, center, radius)
  {
    if s != [] {
      WithinSort(s[1..], center, radius);
      WithinInsert(s[0], Sort(s[1..]), center, radius);
    }
  }

  // At least half of the samples lie within the MAD of the median.
  lemma HalfWithinMad(samples: seq<real>)
    ensures 2 * CountWithin(samples, Stats(samples).median, Stats(samples).mad) >= |samples|
  {
    if samples != [] {
      var sorted := Sort(samples);
      var median := MedianOfSorted(sorted);
      var deviations := Deviations(sorted, median);
      var mad := MedianOfSorted(Sort(deviations));
      SortSorted(deviations);
      MedianHalf(Sort(deviations));
      CountSort(deviations, mad);
      WithinIsDeviation(sorted, median, mad);
      WithinSort(samples, median, mad);
    }
  }

  // ---- values ----

  lemma CentralValue(sorted: seq<real>)
    requires sorted != []
    ensures 2.0 * MedianOfSorted(sorted) == sorted[(|sorted| - 1) / 2] + sorted[|sorted| / 2]
  {
    var n := |sorted|;
    if n % 2 == 1 {
      assert (n - 1) / 2 == n / 2;
    } else {
      assert (n - 1) / 2 == n / 2 - 1;
    }
  }

  // The median is the midpoint of the two central samples, which coincide for odd counts, and the
  // MAD that of the two central distances from it.
  lemma MedianIsCentral(samples: seq<real>)
    requires samples != []
    ensures
      var s, n := Stats(samples), |samples|;
      var sorted, distances := Sort(samples), Sort(Deviations(Sort(samples), s.median));
      && 2.0 * s.median == sorted[(n - 1) / 2] + sorted[n / 2]
      && 2.0 * s.mad == distances[(n - 1) / 2] + distances[n / 2]
  {
    CentralValue(Sort(samples));
    CentralValue(Sort(Deviations(Sort(samples), Stats(samples).median)));
  }

  lemma {:induction false} SumInsert(x: real, s: seq<real>)
    ensures Sum(Insert(x, s)) == x + Sum(s)
  {
    if s == [] || x <= s[0] {
      assert ([x] + s)[1..] == s;
    } else {
      SumInsert(x, s[1..]);
      assert ([s[0]] + Insert(x, s[1..]))[1..] == Insert(x, s[1..]);
    }
  }

  lemma {:induction false} SumSort(s: seq<real>)
    ensures Sum(Sort(s)) == Sum(s)
  {
    if s != [] {
      SumSort(s[1..]);
      SumInsert(s[0], Sort(s[1..]));
    }
  }

  lemma StatsFields(samples: seq<real>)
    requires samples != []
    ensures Stats(samples).mean == Sum(Sort(samples)) / |samples| as real
    ensures Stats(samples).relativeDispersion == Dispersion(Stats(samples).mad, Stats(samples).median)
  {
  }

  // n times the mean is the sum of the samples as given.
  lemma MeanIsTotal(samples: seq<real>)
    requires samples != []
    ensures IsQuotient(Stats(samples).mean, Sum(samples), |samples| as real)
  {
    StatsFields(samples);
    SumSort(samples);
    QuotientIs(Sum(samples), |samples| as real);
  }

  ghost predicate IsQuotient(q: real, x: real, d: real) {
    d * q == x
  }

  lemma QuotientIs(x: real, d: real)
    requires d > 0.0
    ensures IsQuotient(x / d, x, d)
  {
  }

  // A dispersion times the size of the median is the MAD; for a median of practically zero it is
  // zero or, if anything deviates, the largest double.
  ghost predicate IsDispersion(d: real, mad: real, median: real) {
    if median > 0.000000000001 then IsQuotient(d, mad, median)
    else if median < -0.000000000001 then IsQuotient(d, mad, -median)
    else d == if mad > 0.0 then F64_MAX else 0.0
  }

  lemma DispersionIsRatio(samples: seq<real>)
    requires samples != []
    ensures IsDispersion(Stats(samples).relativeDispersion, Stats(samples).mad, Stats(samples).median)
  {
    StatsFields(samples);
    DispersionCases(Stats(samples).mad, Stats(samples).median);
  }

  lemma DispersionCases(mad: real, median: real)
    ensures IsDispersion(Dispersion(mad, median), mad, median)
  {
    if Abs(median) > 0.000000000001 {
      QuotientIs(mad, Abs(median));
    }
  }

  // Minimum and maximum are samples, and all samples lie between them.
  lemma Extremes(samples: seq<real>, i: nat)
    requires i < |samples|
    ensures Stats(samples).min in samples && Stats(samples).max in samples
    ensures Stats(samples).min <= samples[i] <= Stats(samples).max
    ensures Stats(samples).n == |samples|
  {
    var sorted := Sort(samples);
    SortSorted(samples);
    SortKeeps(samples, sorted[0]);
    SortKeeps(samples, sorted[|sorted| - 1]);
    SortKeeps(samples, samples[i]);
    var k :| 0 <= k < |sorted| && sorted[k] == samples[i];
  }

  lemma SortKeeps(s: seq<real>, x: real)
    ensures x in Sort(s) <==> x in s
  {
    assert x in multiset(Sort(s)) <==> x in multiset(s);
  }
}
