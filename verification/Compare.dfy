// Classifying a case against its baseline (src/bench/compare.rs:7-234).

module Compare {
  import opened Reals
  import opened Wrappers
  import opened Statistics

  datatype RegressionClass = Pass | Fail | Noisy | InsufficientSamples

  datatype RegressionBudget = RegressionBudget(relative: real, minAbsoluteUs: real, minSamples: nat,
                                               noisyRelativeDispersion: real)

  datatype SampleSource = Samples(samples: seq<real>) | Aggregated(stats: SampleStats) | WithoutDispersion(stats: SampleStats)

  datatype ComparisonCase = ComparisonCase(name: string, class_: RegressionClass, baselineN: nat, currentN: nat,
                                           baselineMedianUs: real, currentMedianUs: real,
                                           relativeDelta: Option<real>, absoluteDeltaUs: real,
                                           baselineDispersion: Option<real>, currentDispersion: Option<real>)

  function StatsOf(source: SampleSource): SampleStats {
    match source
    case Samples(samples) => Stats(samples)
    case Aggregated(stats) => stats
    case WithoutDispersion(stats) => stats
  }

  function DispersionOf(source: SampleSource): Option<real> {
    match source
    case WithoutDispersion(_) => None
    case _ => Some(StatsOf(source).relativeDispersion)
  }

  predicate Exceeds(dispersion: Option<real>, limit: real) {
    dispersion.Some? && dispersion.value > limit
  }

  function CompareOne(name: string, baseline: SampleSource, current: SampleSource, budget: RegressionBudget): ComparisonCase {
    CompareStats(name, StatsOf(baseline), DispersionOf(baseline), StatsOf(current), DispersionOf(current), budget)
  }

  function CompareStats(name: string, b: SampleStats, baselineDispersion: Option<real>, c: SampleStats,
                        currentDispersion: Option<real>, budget: RegressionBudget): ComparisonCase {
    var absoluteDelta := c.median - b.median;
    var relativeDelta := if Abs(b.median) > 0.000000000001 then Some(absoluteDelta / Abs(b.median)) else None;
    var relativeExceeded := if relativeDelta.Some? then relativeDelta.value > budget.relative else absoluteDelta > 0.0;
    var class_ :=
      if b.n < budget.minSamples || c.n < budget.minSamples || baselineDispersion.None? || currentDispersion.None?
      then InsufficientSamples
      else if Exceeds(baselineDispersion, budget.noisyRelativeDispersion) || Exceeds(currentDispersion, budget.noisyRelativeDispersion)
      then Noisy
      else if relativeExceeded && absoluteDelta > budget.minAbsoluteUs then Fail
      else Pass;
    ComparisonCase(name, class_, b.n, c.n, b.median, c.median, relativeDelta, absoluteDelta, baselineDispersion, currentDispersion)
  }

  predicate Accepted(class_: RegressionClass) {
    class_ == Pass || class_ == Noisy
  }

  // The median grew by more than the relative budget; from a baseline of practically zero, at all.
  predicate GrewTooMuch(before: real, now: real, relative: real) {
    if Abs(before) > 0.000000000001 then now - before > relative * Abs(before) else now > before
  }

  // What a row reports about the two sides.
  lemma ReportedFields(name: string, b: SampleStats, bd: Option<real>, c: SampleStats, cd: Option<real>, budget: RegressionBudget)
    ensures
      var row := CompareStats(name, b, bd, c, cd, budget);
      && row.name == name && row.baselineN == b.n && row.currentN == c.n
      && row.baselineMedianUs == b.median && row.currentMedianUs == c.median
      && row.baselineDispersion == bd && row.currentDispersion == cd
      && row.baselineMedianUs + row.absoluteDeltaUs == row.currentMedianUs
      && (row.relativeDelta.Some? <==> b.median > 0.000000000001 || b.median < -0.000000000001)
      && (row.relativeDelta.Some? && b.median > 0.0 ==> row.relativeDelta.value * b.median == row.absoluteDeltaUs)
      && (row.relativeDelta.Some? && b.median < 0.0 ==> row.relativeDelta.value * -b.median == row.absoluteDeltaUs)
  {
    if Abs(b.median) > 0.000000000001 {
      QuotientTimesBase(c.median - b.median, Abs(b.median));
    }
  }

  lemma QuotientTimesBase(delta: real, base: real)
    requires base > 0.0
    ensures delta / base * base == delta
  {
  }

  // Enough samples on both sides, with recorded dispersion.
  predicate Comparable(b: SampleStats, bd: Option<real>, c: SampleStats, cd: Option<real>, budget: RegressionBudget) {
    b.n >= budget.minSamples && c.n >= budget.minSamples && bd.Some? && cd.Some?
  }

  // The exact condition of every class.
  lemma ClassExactly(name: string, b: SampleStats, bd: Option<real>, c: SampleStats, cd: Option<real>, budget: RegressionBudget)
    ensures
      var class_ := CompareStats(name, b, bd, c, cd, budget).class_;
      var slower := GrewTooMuch(b.median, c.median, budget.relative) && c.median > b.median + budget.minAbsoluteUs;
      && (class_ == InsufficientSamples <==> !Comparable(b, bd, c, cd, budget))
      && (class_ == Noisy <==> Comparable(b, bd, c, cd, budget)
                               && (bd.value > budget.noisyRelativeDispersion || cd.value > budget.noisyRelativeDispersion))
      && (class_ == Fail <==> Comparable(b, bd, c, cd, budget)
                              && bd.value <= budget.noisyRelativeDispersion && cd.value <= budget.noisyRelativeDispersion && slower)
      && (class_ == Pass <==> Comparable(b, bd, c, cd, budget)
                              && bd.value <= budget.noisyRelativeDispersion && cd.value <= budget.noisyRelativeDispersion && !slower)
  {
    FailsExactly(name, b, bd, c, cd, budget);
  }

  // Accepted exactly when both sides are comparable and either one is noisy or not both budgets
  // are exceeded.
  ghost predicate Acceptable(b: SampleStats, bd: Option<real>, c: SampleStats, cd: Option<real>, budget: RegressionBudget) {
    && b.n >= budget.minSamples && c.n >= budget.minSamples && bd.Some? && cd.Some?
    && (bd.value > budget.noisyRelativeDispersion || cd.value > budget.noisyRelativeDispersion
        || c.median - b.median <= budget.minAbsoluteUs || !GrewTooMuch(b.median, c.median, budget.relative))
  }

  lemma AcceptedExactly(name: string, b: SampleStats, bd: Option<real>, c: SampleStats, cd: Option<real>, budget: RegressionBudget)
    ensures Accepted(CompareStats(name, b, bd, c, cd, budget).class_) <==> Acceptable(b, bd, c, cd, budget)
  {
    ClassExactly(name, b, bd, c, cd, budget);
  }

  // A comparison fails exactly when the median exceeds both budgets, on enough quiet samples.
  lemma FailsExactly(name: string, b: SampleStats, bd: Option<real>, c: SampleStats, cd: Option<real>, budget: RegressionBudget)
    ensures CompareStats(name, b, bd, c, cd, budget).class_ == Fail <==>
      && b.n >= budget.minSamples && c.n >= budget.minSamples
      && bd.Some? && bd.value <= budget.noisyRelativeDispersion
      && cd.Some? && cd.value <= budget.noisyRelativeDispersion
      && GrewTooMuch(b.median, c.median, budget.relative)
      && c.median > b.median + budget.minAbsoluteUs
  {
    if Abs(b.median) > 0.000000000001 {
      QuotientExceeds(c.median - b.median, Abs(b.median), budget.relative);
    }
  }

  lemma QuotientExceeds(delta: real, base: real, limit: real)
    requires base > 0.0
    ensures delta / base > limit <==> delta > limit * base
  {
    var q := delta / base;
    assert q * base == delta;
    assert q > limit ==> q * base > limit * base;
    assert q <= limit ==> q * base <= limit * base;
  }

  // A case that did not get slower never fails.
  lemma ImprovementNeverFails(name: string, b: SampleSource, c: SampleSource, budget: RegressionBudget)
    requires StatsOf(c).median <= StatsOf(b).median && budget.minAbsoluteUs >= 0.0
    ensures CompareOne(name, b, c, budget).class_ != Fail
  {
    StatsImprovement(name, StatsOf(b), DispersionOf(b), StatsOf(c), DispersionOf(c), budget);
  }

  lemma StatsImprovement(name: string, b: SampleStats, bd: Option<real>, c: SampleStats, cd: Option<real>, budget: RegressionBudget)
    requires c.median <= b.median && budget.minAbsoluteUs >= 0.0
    ensures CompareStats(name, b, bd, c, cd, budget).class_ != Fail
  {
  }

  // The order in which samples were taken does not matter.
  lemma ComparisonIgnoresOrder(name: string, b: seq<real>, b': seq<real>, c: seq<real>, c': seq<real>, budget: RegressionBudget)
    requires multiset(b) == multiset(b') && multiset(c) == multiset(c')
    ensures CompareOne(name, Samples(b), Samples(c), budget) == CompareOne(name, Samples(b'), Samples(c'), budget)
  {
    SourceIgnoresOrder(b, b');
    SourceIgnoresOrder(c, c');
  }

  lemma SourceIgnoresOrder(a: seq<real>, b: seq<real>)
    requires multiset(a) == multiset(b)
    ensures StatsOf(Samples(a)) == StatsOf(Samples(b)) && DispersionOf(Samples(a)) == DispersionOf(Samples(b))
  {
    StatsIgnoreOrder(a, b);
  }
}
