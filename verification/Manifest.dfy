// Benchmark manifest cases and their validation (src/bench/manifest.rs:151-202;
// examples/benchmark.rs:1275-1322).

module Manifest {
  import opened Reals
  import opened Wrappers
  import opened Sorting
  import opened Statistics

  datatype Dimensions = Dimensions(sizes: map<string, int>)

  datatype Aggregates = Aggregates(mean: real, median: real, mad: real, relativeDispersion: real,
                                   min: real, max: real, p50: real, p95: real, p99: real)

  datatype ManifestCase = ManifestCase(name: string, kernelVariant: string, inputDimensions: Dimensions,
                                       seed: Option<nat>, warmup: nat, samples: nat, samplesUs: seq<real>,
                                       aggregates: Aggregates)

  function AggregatesOf(s: SampleStats): Aggregates {
    Aggregates(s.mean, s.median, s.mad, s.relativeDispersion, s.min, s.max, s.p50, s.p95, s.p99)
  }

  // from_samples: aggregates of the samples as given, and the samples stored sorted.
  function FromSamples(name: string, variant: string, dimensions: Dimensions, seed: Option<nat>, warmup: nat,
                       samplesUs: seq<real>): ManifestCase {
    var stats := Stats(samplesUs);
    ManifestCase(name, variant, dimensions, seed, warmup, stats.n, Sort(samplesUs), AggregatesOf(stats))
  }

  datatype Verdict = Valid(stats: SampleStats) | NoSamples | WrongCount | Inconsistent(field: nat)

  function Max(a: real, b: real): real {
    if a >= b then a else b
  }

  // Stored and recomputed values agree up to a relative tolerance of 1e-12.
  predicate Close(stored: real, expected: real) {
    Abs(stored - expected) <= 0.000000000001 * Max(Max(Abs(stored), Abs(expected)), 1.0)
  }

  function Fields(a: Aggregates): (fields: seq<real>)
    ensures |fields| == 9
  {
    [a.mean, a.median, a.mad, a.relativeDispersion, a.min, a.max, a.p50, a.p95, a.p99]
  }

  // Within 1e-12 of the expected value, or of either magnitude where that is larger.
  ghost predicate Tolerated(stored: real, expected: real) {
    var d := if stored >= expected then stored - expected else expected - stored;
    || d <= 0.000000000001
    || d <= 0.000000000001 * stored || d <= -0.000000000001 * stored
    || d <= 0.000000000001 * expected || d <= -0.000000000001 * expected
  }

  lemma CloseIsTolerated(stored: real, expected: real)
    ensures Close(stored, expected) <==> Tolerated(stored, expected)
  {
  }

  // Every stored aggregate is close to the statistic it is named after.
  ghost predicate AllClose(a: Aggregates, s: SampleStats) {
    && Tolerated(a.mean, s.mean) && Tolerated(a.median, s.median) && Tolerated(a.mad, s.mad)
    && Tolerated(a.relativeDispersion, s.relativeDispersion) && Tolerated(a.min, s.min) && Tolerated(a.max, s.max)
    && Tolerated(a.p50, s.p50) && Tolerated(a.p95, s.p95) && Tolerated(a.p99, s.p99)
  }

  lemma FieldsAreAll(a: Aggregates, s: SampleStats)
    ensures AllClose(a, s) <==> forall i :: 0 <= i < 9 ==> FieldClose(a, s, i)
  {
    if forall i :: 0 <= i < 9 ==> FieldClose(a, s, i) {
      assert FieldClose(a, s, 0) && FieldClose(a, s, 1) && FieldClose(a, s, 2) && FieldClose(a, s, 3);
      assert FieldClose(a, s, 4) && FieldClose(a, s, 5) && FieldClose(a, s, 6);
      assert FieldClose(a, s, 7) && FieldClose(a, s, 8);
    }
  }

  ghost predicate FieldClose(a: Aggregates, s: SampleStats, i: nat)
    requires i < 9
  {
    Tolerated(Fields(a)[i], Fields(AggregatesOf(s))[i])
  }

  // validate_manifest_case
  method Validate(c: ManifestCase) returns (verdict: Verdict)
    ensures verdict.Valid? <==>
      c.samplesUs != [] && c.samples == |c.samplesUs| && AllClose(c.aggregates, Stats(c.samplesUs))
    ensures verdict.Valid? ==> verdict.stats == Stats(c.samplesUs)
    ensures verdict.NoSamples? <==> c.samplesUs == []
    ensures verdict.WrongCount? <==> c.samplesUs != [] && c.samples != |c.samplesUs|
  {
    if |c.samplesUs| == 0 {
      return NoSamples;
    }
    if c.samples != |c.samplesUs| {
      return WrongCount;
    }
    var computed := Stats(c.samplesUs);
    var bad := CheckFields(c.aggregates, computed);
    FieldsAreAll(c.aggregates, computed);
    verdict := if bad.Some? then Inconsistent(bad.value) else Valid(computed);
  }

  // The first aggregate that is not close to its recomputed value.
  method CheckFields(a: Aggregates, s: SampleStats) returns (bad: Option<nat>)
    ensures bad.None? <==> forall i :: 0 <= i < 9 ==> FieldClose(a, s, i)
    ensures bad.Some? ==> bad.value < 9 && !FieldClose(a, s, bad.value)
  {
    var stored, expected := Fields(a), Fields(AggregatesOf(s));
    for i := 0 to 9
      invariant forall j :: 0 <= j < i ==> FieldClose(a, s, j)
    {
      CloseIsTolerated(stored[i], expected[i]);
      if !Close(stored[i], expected[i]) {
        assert !FieldClose(a, s, i);
        return Some(i);
      }
      assert FieldClose(a, s, i);
    }
    bad := None;
  }

  // Recomputing the statistics of the stored samples gives back the stored aggregates.
  lemma StoredSamplesGiveStats(samplesUs: seq<real>)
    ensures Stats(Sort(samplesUs)) == Stats(samplesUs) && Stats(samplesUs).n == |samplesUs|
  {
    StatsIgnoreOrder(Sort(samplesUs), samplesUs);
  }

  // A case built from samples passes validation exactly when there is a sample.
  lemma FromSamplesValid(name: string, variant: string, dimensions: Dimensions, seed: Option<nat>, warmup: nat,
                         samplesUs: seq<real>)
    ensures
      var c := FromSamples(name, variant, dimensions, seed, warmup, samplesUs);
      && (c.samplesUs != [] && c.samples == |c.samplesUs| && AllClose(c.aggregates, Stats(c.samplesUs)) <==> samplesUs != [])
      && c.aggregates == AggregatesOf(Stats(c.samplesUs)) && AllClose(c.aggregates, Stats(samplesUs))
      && c.samples == |samplesUs| && multiset(c.samplesUs) == multiset(samplesUs)
      && c.name == name && c.kernelVariant == variant && c.inputDimensions == dimensions && c.seed == seed && c.warmup == warmup
  {
    StoredSamplesGiveStats(samplesUs);
    CloseToOwn(Stats(samplesUs));
  }

  lemma CloseToOwn(s: SampleStats)
    ensures AllClose(AggregatesOf(s), s)
  {
  }
}
