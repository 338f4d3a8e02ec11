// The comparison as the harness runs it, against the laws of the gate
// (examples/benchmark.rs:886-1203; src/bench/compare.rs:149-181).

module GateReport {
  import opened Wrappers
  import opened Manifest
  import opened Compare
  import opened Gate
  import opened GateLaws

  method DuplicateNames(names: seq<string>) returns (duplicates: set<string>)
    ensures forall name :: name in duplicates <==> Duplicated(names, name)
  {
    var seen: set<string> := {};
    duplicates := {};
    for i := 0 to |names|
      invariant forall name :: name in seen <==> name in names[..i]
      invariant forall name :: name in duplicates <==> Duplicated(names[..i], name)
    {
      forall name { DuplicatedGrows(names, i, name); }
      if names[i] in seen {
        duplicates := duplicates + {names[i]};
      }
      seen := seen + {names[i]};
      assert names[..i + 1] == names[..i] + [names[i]];
    }
    assert names[..|names|] == names;
  }

  lemma DuplicatedGrows(names: seq<string>, i: nat, name: string)
    requires i < |names|
    ensures Duplicated(names[..i + 1], name) <==>
      Duplicated(names[..i], name) || (names[i] == name && name in names[..i])
  {
    var before, after := names[..i], names[..i + 1];
    if names[i] == name && name in before {
      var k :| 0 <= k < |before| && before[k] == name;
      assert after[k] == name && after[i] == name;
    }
    if Duplicated(before, name) {
      var k, l :| 0 <= k < l < |before| && before[k] == name && before[l] == name;
      assert after[k] == name && after[l] == name;
    }
    if Duplicated(after, name) {
      var k, l :| 0 <= k < l < |after| && after[k] == name && after[l] == name;
      assert before[k] == name;
      if l < i {
        assert before[l] == name;
      }
    }
  }

  // ---- rejections, kind by kind ----

  ghost predicate NamedFor(j: Rejection, reason: Reason, names: set<string>) {
    j.reason == reason && j.caseName.Some? && j.caseName.value in names
  }

  method RejectNames(names: set<string>, reason: Reason) returns (rejections: seq<Rejection>)
    ensures forall j :: j in rejections <==> NamedFor(j, reason, names)
  {
    rejections := [];
    var rest := names;
    while rest != {}
      invariant rest <= names
      invariant forall j :: j in rejections <==> NamedFor(j, reason, names - rest)
      decreases |rest|
    {
      var name :| name in rest;
      rejections := rejections + [Rejection(reason, Some(name))];
      rest := rest - {name};
    }
  }

  // Names that do not occur on the other side.
  ghost predicate Unmatched(j: Rejection, reason: Reason, names: seq<string>, others: seq<string>) {
    j.reason == reason && j.caseName.Some? && j.caseName.value in names && j.caseName.value !in others
  }

  method RejectUnmatched(names: seq<string>, others: seq<string>, reason: Reason) returns (rejections: seq<Rejection>)
    ensures forall j :: j in rejections <==> Unmatched(j, reason, names, others)
  {
    rejections := [];
    for i := 0 to |names|
      invariant forall j :: j in rejections <==> Unmatched(j, reason, names[..i], others)
    {
      if names[i] !in others {
        rejections := rejections + [Rejection(reason, Some(names[i]))];
      }
      assert names[..i + 1] == names[..i] + [names[i]];
    }
    assert names[..|names|] == names;
  }

  // The six run-level checks.
  method RejectRun(b: Baseline, r: Run) returns (rejections: seq<Rejection>)
    ensures forall j :: j in rejections <==> j.caseName == None && RunCheckFails(b, r, j.reason)
  {
    rejections := [];
    if RunCheckFails(b, r, BuildProfileMismatch) {
      rejections := rejections + [Rejection(BuildProfileMismatch, None)];
    }
    if RunCheckFails(b, r, HardwareIdentityMismatch) {
      rejections := rejections + [Rejection(HardwareIdentityMismatch, None)];
    }
    if RunCheckFails(b, r, CudaEnvironmentMismatch) {
      rejections := rejections + [Rejection(CudaEnvironmentMismatch, None)];
    }
    if RunCheckFails(b, r, PowerClockMismatch) {
      rejections := rejections + [Rejection(PowerClockMismatch, None)];
    }
    if RunCheckFails(b, r, HostIdentityMismatch) {
      rejections := rejections + [Rejection(HostIdentityMismatch, None)];
    }
    if RunCheckFails(b, r, FeatureSetMismatch) {
      rejections := rejections + [Rejection(FeatureSetMismatch, None)];
    }
  }

  // ---- the loop over the current cases ----

  // The rejection that a fate pushes for a case of this name.
  ghost predicate Rejects(fate: Fate, name: string, j: Rejection) {
    || (fate == WarmupDiffers && j == Rejection(WarmupMismatch, Some(name)))
    || (fate == WorkloadDiffers && j == Rejection(WorkloadMetadataMismatch, Some(name)))
  }

  ghost predicate RejectedAmong(fates: seq<Fate>, names: seq<string>, j: Rejection)
    requires |fates| == |names|
  {
    exists i :: 0 <= i < |fates| && Rejects(fates[i], names[i], j)
  }

  ghost predicate CaseRejected(cmp: Comparison, j: Rejection) {
    RejectedAmong(Fates(cmp), CaseNames(cmp.run.cases), j)
  }

  // One iteration: what happens to the case.
  method CaseFate(cmp: Comparison, duplicateRows: set<string>, duplicateCases: set<string>, c: ManifestCase, ghost i: nat)
      returns (fate: Fate)
    requires i < |cmp.run.cases| && c == cmp.run.cases[i]
    requires forall name :: name in duplicateRows <==> Duplicated(RowNames(cmp.baseline.rows), name)
    requires forall name :: name in duplicateCases <==> Duplicated(CaseNames(cmp.run.cases), name)
    ensures fate == FateAt(cmp, i)
  {
    if c.name in duplicateRows || c.name in duplicateCases {
      return Skipped;
    }
    var base := FindRow(cmp.baseline.rows, c.name);
    if base.None? || ProvenanceDiffers(cmp.baseline, cmp.run) {
      return Skipped;
    }
    if !MatchesWarmup(base.value, c) {
      return WarmupDiffers;
    }
    if !MatchesWorkload(base.value, c) {
      return WorkloadDiffers;
    }
    fate := Classified(CompareCase(base.value, c, cmp.budget));
  }

  // What the loop pushes for a case: a row, a rejection, or nothing.
  function RowOf(fate: Fate): seq<ComparisonCase> {
    if fate.Classified? then [fate.row] else []
  }

  function RejectionOf(fate: Fate, name: string): seq<Rejection> {
    if fate == WarmupDiffers then [Rejection(WarmupMismatch, Some(name))]
    else if fate == WorkloadDiffers then [Rejection(WorkloadMetadataMismatch, Some(name))]
    else []
  }

  lemma RejectedGrows(fates: seq<Fate>, names: seq<string>, i: nat, j: Rejection)
    requires i < |fates| == |names|
    ensures RejectedAmong(fates[..i + 1], names[..i + 1], j) <==>
      RejectedAmong(fates[..i], names[..i], j) || j in RejectionOf(fates[i], names[i])
  {
    var before, after := fates[..i], fates[..i + 1];
    assert j in RejectionOf(fates[i], names[i]) <==> Rejects(after[i], names[..i + 1][i], j);
    if RejectedAmong(before, names[..i], j) {
      var k :| 0 <= k < |before| && Rejects(before[k], names[..i][k], j);
      assert Rejects(after[k], names[..i + 1][k], j);
    }
    if RejectedAmong(after, names[..i + 1], j) {
      var k :| 0 <= k < |after| && Rejects(after[k], names[..i + 1][k], j);
      assert k < i ==> Rejects(before[k], names[..i][k], j);
    }
  }

  lemma RowsGrow(fates: seq<Fate>, i: nat)
    requires i < |fates|
    ensures Rows(fates[..i + 1]) == Rows(fates[..i]) + RowOf(fates[i])
  {
    assert fates[..i + 1][..i] == fates[..i];
  }

  method CompareCases(cmp: Comparison, duplicateRows: set<string>, duplicateCases: set<string>)
      returns (rows: seq<ComparisonCase>, rejections: seq<Rejection>)
    requires forall name :: name in duplicateRows <==> Duplicated(RowNames(cmp.baseline.rows), name)
    requires forall name :: name in duplicateCases <==> Duplicated(CaseNames(cmp.run.cases), name)
    ensures rows == Rows(Fates(cmp))
    ensures forall j :: j in rejections <==> CaseRejected(cmp, j)
  {
    rows, rejections := [], [];
    ghost var fates, names := Fates(cmp), CaseNames(cmp.run.cases);
    for i := 0 to |cmp.run.cases|
      invariant rows == Rows(fates[..i])
      invariant forall j :: j in rejections <==> RejectedAmong(fates[..i], names[..i], j)
    {
      var c := cmp.run.cases[i];
      var fate := CaseFate(cmp, duplicateRows, duplicateCases, c, i);
      assert fate == fates[i] && c.name == names[i];
      RowsGrow(fates, i);
      forall j { RejectedGrows(fates, names, i, j); }
      rows := rows + RowOf(fate);
      rejections := rejections + RejectionOf(fate, c.name);
    }
    assert fates[..|fates|] == fates && names[..|names|] == names;
  }

  // ---- the report ----

  // comparison_report
  method ComparisonReport(cases: seq<ComparisonCase>, enforced: bool, rejections: seq<Rejection>) returns (report: Report)
    ensures report.cases == cases && report.enforced == enforced
    ensures forall j :: j in report.rejections <==> j in rejections || (cases == [] && NoComparable(j, rejections))
    ensures report.gatePassed == (!enforced || (report.rejections == [] && !HasFailure(cases)))
  {
    var all := rejections;
    if |cases| == 0 && !(exists i :: 0 <= i < |rejections| && rejections[i].reason == NoComparableCases) {
      all := all + [Rejection(NoComparableCases, None)];
    }
    report := Report(enforced, !enforced || (|all| == 0 && !HasFailure(cases)), all, cases);
  }

  // The rejection added when there is nothing to compare and nothing has said so yet.
  ghost predicate NoComparable(j: Rejection, rejections: seq<Rejection>) {
    j == Rejection(NoComparableCases, None) && forall i :: 0 <= i < |rejections| ==> rejections[i].reason != NoComparableCases
  }

  // A rejection found before the report is assembled.
  ghost predicate Collected(cmp: Comparison, j: Rejection) {
    || (j.caseName == None && RunCheckFails(cmp.baseline, cmp.run, j.reason))
    || (j.reason == DuplicateBaselineName && j.caseName.Some? && Duplicated(RowNames(cmp.baseline.rows), j.caseName.value))
    || (j.reason == DuplicateCurrentName && j.caseName.Some? && Duplicated(CaseNames(cmp.run.cases), j.caseName.value))
    || Unmatched(j, MissingCurrentCase, RowNames(cmp.baseline.rows), CaseNames(cmp.run.cases))
    || Unmatched(j, MissingBaselineCase, CaseNames(cmp.run.cases), RowNames(cmp.baseline.rows))
    || CaseRejected(cmp, j)
  }

  lemma JustifiedByKind(cmp: Comparison, j: Rejection)
    ensures Justified(cmp, j) <==> Collected(cmp, j) || (j == Rejection(NoComparableCases, None) && Rows(Fates(cmp)) == [])
    ensures Collected(cmp, j) ==> j.reason != NoComparableCases
  {
    match j.reason
    case DuplicateBaselineName =>
    case DuplicateCurrentName =>
    case MissingCurrentCase =>
    case MissingBaselineCase =>
    case WarmupMismatch =>
    case WorkloadMetadataMismatch =>
    case NoComparableCases =>
    case _ =>
  }

  method Collect(cmp: Comparison) returns (rows: seq<ComparisonCase>, rejections: seq<Rejection>)
    ensures rows == Rows(Fates(cmp))
    ensures forall j :: j in rejections <==> Collected(cmp, j)
  {
    var rowNames, caseNames := RowNames(cmp.baseline.rows), CaseNames(cmp.run.cases);
    var duplicateRows := DuplicateNames(rowNames);
    var duplicateCases := DuplicateNames(caseNames);
    var run := RejectRun(cmp.baseline, cmp.run);
    var namedTwice := RejectNames(duplicateRows, DuplicateBaselineName);
    var namedTwiceNow := RejectNames(duplicateCases, DuplicateCurrentName);
    var missing := RejectUnmatched(rowNames, caseNames, MissingCurrentCase);
    var added := RejectUnmatched(caseNames, rowNames, MissingBaselineCase);
    var mismatched;
    rows, mismatched := CompareCases(cmp, duplicateRows, duplicateCases);
    rejections := run + namedTwice + namedTwiceNow + missing + added + mismatched;
  }

  // The whole comparison: exactly the justified rejections, and a verdict that is exact.
  method CompareWithBaseline(cmp: Comparison, enforced: bool) returns (report: Report)
    ensures report.cases == Rows(Fates(cmp))
    ensures forall j :: j in report.rejections <==> Justified(cmp, j)
    ensures report.gatePassed == (!enforced || MayPass(cmp))
  {
    var rows, rejections := Collect(cmp);
    report := ComparisonReport(rows, enforced, rejections);
    forall j ensures j in report.rejections <==> Justified(cmp, j) {
      JustifiedByKind(cmp, j);
      NotYetSaid(cmp, rejections);
    }
    NoneIsEmpty(cmp, report.rejections);
    GateExactly(cmp);
  }

  lemma NotYetSaid(cmp: Comparison, rejections: seq<Rejection>)
    requires forall j :: j in rejections <==> Collected(cmp, j)
    ensures NoComparable(Rejection(NoComparableCases, None), rejections)
  {
    forall i | 0 <= i < |rejections| ensures rejections[i].reason != NoComparableCases {
      assert Collected(cmp, rejections[i]);
      JustifiedByKind(cmp, rejections[i]);
    }
  }

  lemma NoneIsEmpty(cmp: Comparison, rejections: seq<Rejection>)
    requires forall j :: j in rejections <==> Justified(cmp, j)
    ensures rejections == [] <==> NoneJustified(cmp)
  {
    if rejections != [] {
      assert Justified(cmp, rejections[0]);
    }
  }

  // ---- exit codes ----

  datatype Loaded = NotRequested | Unreadable | Unparsable | Parsed(baseline: Baseline)

  // The exit code of the comparison; a baseline that cannot be loaded fails even without enforcement.
  method ExitCode(loaded: Loaded, run: Run, budget: RegressionBudget, enforced: bool) returns (code: int)
    ensures loaded.NotRequested? ==> code == 0
    ensures loaded.Unreadable? || loaded.Unparsable? ==> code == 1
    ensures loaded.Parsed? ==> code == if enforced && !MayPass(Comparison(loaded.baseline, run, budget)) then 1 else 0
  {
    match loaded
    case NotRequested => code := 0;
    case Unreadable => code := 1;
    case Unparsable => code := 1;
    case Parsed(baseline) =>
      var report := CompareWithBaseline(Comparison(baseline, run, budget), enforced);
      code := if enforced && !report.gatePassed then 1 else 0;
  }
}
