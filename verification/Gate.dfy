// What a baseline comparison must report: the inputs, the fate of every case, and when an
// enforced gate may pass (examples/benchmark.rs:934-1083, :1205-1345; src/bench/compare.rs:119-181).

module Gate {
  import opened Wrappers
  import opened Statistics
  import opened Manifest
  import opened Compare

  // ---- inputs ----

  datatype BuildProfile = BuildProfile(
    rustc: Option<string>, nvcc: Option<string>, rustflags: seq<string>, targetFeatures: seq<string>,
    cargoProfile: Option<string>, cargoProfileFingerprint: Option<string>, cargoLto: Option<string>,
    cargoCodegenUnits: Option<string>, cargoIncremental: Option<string>, panicStrategy: Option<string>,
    cudaArch: Option<string>, ptxVersion: Option<string>, targetTriple: Option<string>, optLevel: string,
    debugAssertions: bool)

  datatype HostIdentity = HostIdentity(arch: string, os: string, cpuModel: Option<string>)

  datatype DeviceIdentity = DeviceIdentity(
    name: Option<string>, uuid: Option<string>, computeCapability: Option<string>, smArch: Option<string>,
    driverVersion: Option<string>, runtimeVersion: Option<string>, toolchainVersion: Option<string>,
    vramTotalMb: Option<nat>)

  datatype PowerClockControls = PowerClockControls(
    persistenceMode: Option<string>, graphicsClockMhz: Option<real>, memoryClockMhz: Option<real>, powerLimitW: Option<real>)

  // The manifest of the current run, its toolchain split into build profile and host.
  datatype Run = Run(profile: BuildProfile, host: HostIdentity, device: DeviceIdentity, powerClock: PowerClockControls,
                     features: seq<string>, cases: seq<ManifestCase>)

  datatype BaselineRow = BaselineRow(name: string, kernelVariant: Option<string>, inputDimensions: Option<Dimensions>,
                                     seed: Option<nat>, warmup: Option<nat>, samplesUs: seq<real>, stats: SampleStats,
                                     dispersionKnown: bool)

  // A legacy baseline records no provenance.
  datatype Baseline = Baseline(rows: seq<BaselineRow>, profile: Option<BuildProfile>, device: Option<DeviceIdentity>,
                               powerClock: Option<PowerClockControls>, host: Option<HostIdentity>,
                               features: Option<seq<string>>)

  datatype Reason =
    | BaselineReadFailure | BaselineParseFailure | MissingCurrentCase | MissingBaselineCase | BuildProfileMismatch
    | HardwareIdentityMismatch | CudaEnvironmentMismatch | PowerClockMismatch | HostIdentityMismatch | FeatureSetMismatch
    | WarmupMismatch | WorkloadMetadataMismatch | DuplicateBaselineName | DuplicateCurrentName | NoComparableCases

  datatype Rejection = Rejection(reason: Reason, caseName: Option<string>)

  datatype Report = Report(enforced: bool, gatePassed: bool, rejections: seq<Rejection>, cases: seq<ComparisonCase>)

  datatype Comparison = Comparison(baseline: Baseline, run: Run, budget: RegressionBudget)

  // ---- provenance, check by check ----

  predicate ProfileDiffers(p: BuildProfile, c: BuildProfile) {
    || p.cargoProfileFingerprint.None? || c.cargoProfileFingerprint.None?
    || p.rustc != c.rustc || p.nvcc != c.nvcc || p.rustflags != c.rustflags || p.targetFeatures != c.targetFeatures
    || p.cargoProfile != c.cargoProfile || p.cargoProfileFingerprint != c.cargoProfileFingerprint
    || p.cargoLto != c.cargoLto || p.cargoCodegenUnits != c.cargoCodegenUnits || p.cargoIncremental != c.cargoIncremental
    || p.panicStrategy != c.panicStrategy || p.cudaArch != c.cudaArch || p.ptxVersion != c.ptxVersion
    || p.targetTriple != c.targetTriple || p.optLevel != c.optLevel || p.debugAssertions != c.debugAssertions
  }

  predicate SameHardware(a: DeviceIdentity, b: DeviceIdentity) {
    a.name == b.name && a.uuid == b.uuid && a.computeCapability == b.computeCapability && a.smArch == b.smArch
    && a.vramTotalMb == b.vramTotalMb
  }

  predicate SameCudaEnvironment(a: DeviceIdentity, b: DeviceIdentity) {
    a.driverVersion == b.driverVersion && a.runtimeVersion == b.runtimeVersion && a.toolchainVersion == b.toolchainVersion
  }

  function FeatureSet(features: seq<string>): (s: set<string>)
    ensures forall f :: f in s <==> f in features
  {
    set f | f in features
  }

  predicate SameFeatureSet(a: seq<string>, b: seq<string>) {
    FeatureSet(a) == FeatureSet(b)
  }

  predicate HostDiffers(a: HostIdentity, b: HostIdentity) {
    a.arch != b.arch || a.os != b.os || a.cpuModel != b.cpuModel
  }

  // A run-level check that fails; checks of what the baseline did not record are skipped.
  predicate RunCheckFails(b: Baseline, r: Run, reason: Reason) {
    match reason
    case BuildProfileMismatch => b.profile.Some? && ProfileDiffers(b.profile.value, r.profile)
    case HardwareIdentityMismatch => b.device.Some? && !SameHardware(b.device.value, r.device)
    case CudaEnvironmentMismatch => b.device.Some? && !SameCudaEnvironment(b.device.value, r.device)
    case PowerClockMismatch => b.powerClock.Some? && b.powerClock.value != r.powerClock
    case HostIdentityMismatch => b.host.Some? && HostDiffers(b.host.value, r.host)
    case FeatureSetMismatch => b.features.Some? && !SameFeatureSet(b.features.value, r.features)
    case _ => false
  }

  predicate ProvenanceDiffers(b: Baseline, r: Run) {
    || RunCheckFails(b, r, BuildProfileMismatch) || RunCheckFails(b, r, HardwareIdentityMismatch)
    || RunCheckFails(b, r, CudaEnvironmentMismatch) || RunCheckFails(b, r, PowerClockMismatch)
    || RunCheckFails(b, r, HostIdentityMismatch) || RunCheckFails(b, r, FeatureSetMismatch)
  }

  // Whatever the baseline recorded about its run is the same in the current run.
  ghost predicate SameProvenance(b: Baseline, r: Run) {
    && (b.profile.Some? ==> b.profile.value == r.profile && r.profile.cargoProfileFingerprint.Some?)
    && (b.device.Some? ==> b.device.value == r.device)
    && (b.powerClock.Some? ==> b.powerClock.value == r.powerClock)
    && (b.host.Some? ==> b.host.value == r.host)
    && (b.features.Some? ==> forall f :: f in b.features.value <==> f in r.features)
  }

  // The six checks together compare every recorded field.
  lemma ChecksAreComplete(b: Baseline, r: Run)
    ensures !ProvenanceDiffers(b, r) <==> SameProvenance(b, r)
  {
    if b.features.Some? {
      FeatureSets(b.features.value, r.features);
    }
  }

  lemma FeatureSets(a: seq<string>, b: seq<string>)
    ensures SameFeatureSet(a, b) <==> forall f :: f in a <==> f in b
  {
    var x, y := FeatureSet(a), FeatureSet(b);
    if x == y {
      forall f ensures f in a <==> f in b {
        assert f in x <==> f in y;
      }
    }
  }

  // ---- names and rows ----

  function RowNames(rows: seq<BaselineRow>): (names: seq<string>)
    ensures |names| == |rows|
  {
    seq(|rows|, i requires 0 <= i < |rows| => rows[i].name)
  }

  function CaseNames(cases: seq<ManifestCase>): (names: seq<string>)
    ensures |names| == |cases|
  {
    seq(|cases|, i requires 0 <= i < |cases| => cases[i].name)
  }

  ghost predicate Duplicated(names: seq<string>, name: string) {
    exists i, j :: 0 <= i < j < |names| && names[i] == name && names[j] == name
  }

  // rows.iter().find(..)
  function FindRow(rows: seq<BaselineRow>, name: string): (found: Option<BaselineRow>)
    ensures found.Some? ==> found.value in rows && found.value.name == name
  {
    if rows == [] then None
    else if rows[0].name == name then Some(rows[0])
    else FindRow(rows[1..], name)
  }

  lemma {:induction false} FindRowFinds(rows: seq<BaselineRow>, name: string)
    ensures FindRow(rows, name).Some? <==> name in RowNames(rows)
  {
    if rows != [] {
      FindRowFinds(rows[1..], name);
      assert RowNames(rows) == [rows[0].name] + RowNames(rows[1..]);
    }
  }

  lemma {:induction false} FindFirst(rows: seq<BaselineRow>, k: nat)
    requires k < |rows| && forall i :: 0 <= i < k ==> rows[i].name != rows[k].name
    ensures FindRow(rows, rows[k].name) == Some(rows[k])
  {
    if k > 0 {
      FindFirst(rows[1..], k - 1);
    }
  }

  lemma FindUnique(rows: seq<BaselineRow>, k: nat)
    requires k < |rows| && !Duplicated(RowNames(rows), rows[k].name)
    ensures FindRow(rows, rows[k].name) == Some(rows[k])
  {
    var names := RowNames(rows);
    forall i | 0 <= i < k ensures rows[i].name != rows[k].name {
      assert names[i] == rows[i].name && names[k] == rows[k].name;
    }
    FindFirst(rows, k);
  }

  predicate MatchesWorkload(row: BaselineRow, c: ManifestCase) {
    row.kernelVariant.Some? && row.inputDimensions.Some? ==>
      row.kernelVariant.value == c.kernelVariant && row.inputDimensions.value == c.inputDimensions && row.seed == c.seed
  }

  predicate MatchesWarmup(row: BaselineRow, c: ManifestCase) {
    row.warmup.Some? ==> row.warmup.value == c.warmup
  }

  function Source(row: BaselineRow): SampleSource {
    if !row.dispersionKnown then WithoutDispersion(row.stats)
    else if row.samplesUs == [] then Aggregated(row.stats)
    else Samples(row.samplesUs)
  }

  function CompareCase(row: BaselineRow, c: ManifestCase, budget: RegressionBudget): ComparisonCase {
    CompareOne(c.name, Source(row), Samples(c.samplesUs), budget)
  }

  // ---- the fate of one case ----

  datatype Fate = Skipped | WarmupDiffers | WorkloadDiffers | Classified(row: ComparisonCase)

  function FateOf(row: BaselineRow, c: ManifestCase, budget: RegressionBudget): Fate {
    if !MatchesWarmup(row, c) then WarmupDiffers
    else if !MatchesWorkload(row, c) then WorkloadDiffers
    else Classified(CompareCase(row, c, budget))
  }

  // Warmup is looked at first, then the workload, and only then the statistics.
  lemma FatesExactly(row: BaselineRow, c: ManifestCase, budget: RegressionBudget)
    ensures
      var warm := row.warmup == None || row.warmup == Some(c.warmup);
      var same := row.kernelVariant == None || row.inputDimensions == None
        || (row.kernelVariant == Some(c.kernelVariant) && row.inputDimensions == Some(c.inputDimensions) && row.seed == c.seed);
      && (FateOf(row, c, budget) == WarmupDiffers <==> !warm)
      && (FateOf(row, c, budget) == WorkloadDiffers <==> warm && !same)
      && (FateOf(row, c, budget).Classified? <==> warm && same)
  {
  }

  ghost function FateAt(cmp: Comparison, i: nat): Fate
    requires i < |cmp.run.cases|
  {
    var c := cmp.run.cases[i];
    var found := FindRow(cmp.baseline.rows, c.name);
    if Duplicated(RowNames(cmp.baseline.rows), c.name) || Duplicated(CaseNames(cmp.run.cases), c.name) then Skipped
    else if found.None? || ProvenanceDiffers(cmp.baseline, cmp.run) then Skipped
    else FateOf(found.value, c, cmp.budget)
  }

  ghost function Fates(cmp: Comparison): (fates: seq<Fate>)
    ensures |fates| == |cmp.run.cases|
  {
    seq(|cmp.run.cases|, i requires 0 <= i < |cmp.run.cases| => FateAt(cmp, i))
  }

  // The classified rows, in order.
  function Rows(fates: seq<Fate>): (rows: seq<ComparisonCase>) {
    if fates == [] then []
    else
      var n := |fates| - 1;
      Rows(fates[..n]) + (if fates[n].Classified? then [fates[n].row] else [])
  }

  // ---- what may be rejected, and for which reason ----

  ghost predicate Justified(cmp: Comparison, j: Rejection) {
    var rowNames, caseNames := RowNames(cmp.baseline.rows), CaseNames(cmp.run.cases);
    match j.reason
    case DuplicateBaselineName => j.caseName.Some? && Duplicated(rowNames, j.caseName.value)
    case DuplicateCurrentName => j.caseName.Some? && Duplicated(caseNames, j.caseName.value)
    case MissingCurrentCase => j.caseName.Some? && j.caseName.value in rowNames && j.caseName.value !in caseNames
    case MissingBaselineCase => j.caseName.Some? && j.caseName.value in caseNames && j.caseName.value !in rowNames
    case WarmupMismatch => exists i: nat :: i < |cmp.run.cases| && Fates(cmp)[i] == WarmupDiffers && j.caseName == Some(cmp.run.cases[i].name)
    case WorkloadMetadataMismatch => exists i: nat :: i < |cmp.run.cases| && Fates(cmp)[i] == WorkloadDiffers && j.caseName == Some(cmp.run.cases[i].name)
    case NoComparableCases => j.caseName == None && Rows(Fates(cmp)) == []
    case _ => j.caseName == None && RunCheckFails(cmp.baseline, cmp.run, j.reason)
  }

  predicate HasFailure(cases: seq<ComparisonCase>) {
    exists i :: 0 <= i < |cases| && (cases[i].class_ == Fail || cases[i].class_ == InsufficientSamples)
  }

  ghost predicate Unique(names: seq<string>) {
    forall i, j :: 0 <= i < j < |names| ==> names[i] != names[j]
  }

  // The conditions for passing, stated without the order of the checks.
  ghost predicate MayPass(cmp: Comparison) {
    var rows, cases := cmp.baseline.rows, cmp.run.cases;
    && cases != [] && Unique(RowNames(rows)) && Unique(CaseNames(cases))
    && (forall name :: name in RowNames(rows) <==> name in CaseNames(cases))
    && SameProvenance(cmp.baseline, cmp.run)
    && forall k, i :: 0 <= k < |rows| && 0 <= i < |cases| && rows[k].name == cases[i].name ==> Agrees(cmp, rows[k], cases[i])
  }

  // A case agrees with its row, field by field: the recorded warmup; kernel variant, dimensions and
  // seed where the baseline has them; and acceptable statistics, for which a row needs a recorded
  // dispersion and stands for its own samples, or without samples for its stored statistics.
  ghost predicate Agrees(cmp: Comparison, row: BaselineRow, c: ManifestCase) {
    && (row.warmup == None || row.warmup == Some(c.warmup))
    && (row.kernelVariant == None || row.inputDimensions == None
        || (row.kernelVariant == Some(c.kernelVariant) && row.inputDimensions == Some(c.inputDimensions) && row.seed == c.seed))
    && row.dispersionKnown
    && var b, now := if row.samplesUs == [] then row.stats else Stats(row.samplesUs), Stats(c.samplesUs);
    Acceptable(b, Some(b.relativeDispersion), now, Some(now.relativeDispersion), cmp.budget)
  }

  // That is what the comparison's own tests come to.
  lemma AgreesExactly(cmp: Comparison, row: BaselineRow, c: ManifestCase)
    ensures Agrees(cmp, row, c) <==>
      MatchesWarmup(row, c) && MatchesWorkload(row, c) && Accepted(CompareCase(row, c, cmp.budget).class_)
  {
    var b, now := Source(row), Samples(c.samplesUs);
    AcceptedExactly(c.name, StatsOf(b), DispersionOf(b), StatsOf(now), DispersionOf(now), cmp.budget);
  }

  ghost predicate NoneJustified(cmp: Comparison) {
    forall j :: !Justified(cmp, j)
  }
}
