// The exact condition under which nothing is rejected and every row is accepted, and the
// guarantee that no case disappears without a trace (examples/benchmark.rs:934-1083).

module GateLaws {
  import opened Wrappers
  import opened Compare
  import opened Gate

  // ---- the classified rows ----

  lemma {:induction false} RowAppears(fates: seq<Fate>, i: nat)
    requires i < |fates| && fates[i].Classified?
    ensures fates[i].row in Rows(fates)
    decreases |fates|
  {
    var n := |fates| - 1;
    if i < n {
      RowAppears(fates[..n], i);
    }
  }

  lemma {:induction false} RowComesFrom(fates: seq<Fate>, row: ComparisonCase) returns (i: nat)
    requires row in Rows(fates)
    ensures i < |fates| && fates[i] == Classified(row)
    decreases |fates|
  {
    var n := |fates| - 1;
    if row in Rows(fates[..n]) {
      i := RowComesFrom(fates[..n], row);
    } else {
      i := n;
    }
  }

  // ---- from passing to the conditions ----

  lemma NamesAreSound(cmp: Comparison)
    requires NoneJustified(cmp)
    ensures Unique(RowNames(cmp.baseline.rows)) && Unique(CaseNames(cmp.run.cases))
    ensures forall name :: name in RowNames(cmp.baseline.rows) <==> name in CaseNames(cmp.run.cases)
    ensures SameProvenance(cmp.baseline, cmp.run)
  {
    var rowNames, caseNames := RowNames(cmp.baseline.rows), CaseNames(cmp.run.cases);
    forall name ensures !Duplicated(rowNames, name) && !Duplicated(caseNames, name) {
      assert !Justified(cmp, Rejection(DuplicateBaselineName, Some(name)));
      assert !Justified(cmp, Rejection(DuplicateCurrentName, Some(name)));
    }
    NoDuplicateIsUnique(rowNames);
    NoDuplicateIsUnique(caseNames);
    forall name ensures name in rowNames <==> name in caseNames {
      assert !Justified(cmp, Rejection(MissingCurrentCase, Some(name)));
      assert !Justified(cmp, Rejection(MissingBaselineCase, Some(name)));
    }
    RunChecksPass(cmp);
  }

  lemma RunChecksPass(cmp: Comparison)
    requires NoneJustified(cmp)
    ensures SameProvenance(cmp.baseline, cmp.run)
  {
    assert !Justified(cmp, Rejection(BuildProfileMismatch, None));
    assert !Justified(cmp, Rejection(HardwareIdentityMismatch, None));
    assert !Justified(cmp, Rejection(CudaEnvironmentMismatch, None));
    assert !Justified(cmp, Rejection(PowerClockMismatch, None));
    assert !Justified(cmp, Rejection(HostIdentityMismatch, None));
    assert !Justified(cmp, Rejection(FeatureSetMismatch, None));
    ChecksAreComplete(cmp.baseline, cmp.run);
  }

  lemma NoDuplicateIsUnique(names: seq<string>)
    ensures Unique(names) <==> forall name :: !Duplicated(names, name)
  {
    if forall name :: !Duplicated(names, name) {
      forall i, j | 0 <= i < j < |names| ensures names[i] != names[j] {
        assert !Duplicated(names, names[i]);
      }
    }
  }

  // With sound names and provenance, a case meets its own row.
  lemma FateOfMatch(cmp: Comparison, k: nat, i: nat)
    requires k < |cmp.baseline.rows| && i < |cmp.run.cases| && cmp.baseline.rows[k].name == cmp.run.cases[i].name
    requires Unique(RowNames(cmp.baseline.rows)) && Unique(CaseNames(cmp.run.cases)) && SameProvenance(cmp.baseline, cmp.run)
    ensures FateAt(cmp, i) == FateOf(cmp.baseline.rows[k], cmp.run.cases[i], cmp.budget)
  {
    NoDuplicateIsUnique(RowNames(cmp.baseline.rows));
    NoDuplicateIsUnique(CaseNames(cmp.run.cases));
    ChecksAreComplete(cmp.baseline, cmp.run);
    FindUnique(cmp.baseline.rows, k);
  }

  lemma PassingAgrees(cmp: Comparison, k: nat, i: nat)
    requires NoneJustified(cmp) && !HasFailure(Rows(Fates(cmp)))
    requires k < |cmp.baseline.rows| && i < |cmp.run.cases| && cmp.baseline.rows[k].name == cmp.run.cases[i].name
    ensures Agrees(cmp, cmp.baseline.rows[k], cmp.run.cases[i])
  {
    NamesAreSound(cmp);
    FateOfMatch(cmp, k, i);
    assert !Justified(cmp, Rejection(WarmupMismatch, Some(cmp.run.cases[i].name)));
    assert !Justified(cmp, Rejection(WorkloadMetadataMismatch, Some(cmp.run.cases[i].name)));
    assert FateAt(cmp, i).Classified?;
    RowAppears(Fates(cmp), i);
    AgreesExactly(cmp, cmp.baseline.rows[k], cmp.run.cases[i]);
  }

  lemma PassingMayPass(cmp: Comparison)
    requires NoneJustified(cmp) && !HasFailure(Rows(Fates(cmp)))
    ensures MayPass(cmp)
  {
    NamesAreSound(cmp);
    assert !Justified(cmp, Rejection(NoComparableCases, None));
    forall k: nat, i: nat | k < |cmp.baseline.rows| && i < |cmp.run.cases| && cmp.baseline.rows[k].name == cmp.run.cases[i].name
      ensures Agrees(cmp, cmp.baseline.rows[k], cmp.run.cases[i])
    {
      PassingAgrees(cmp, k, i);
    }
  }

  // ---- and back ----

  // Every case of a run that may pass gets an accepted row.
  lemma EveryCaseAccepted(cmp: Comparison, i: nat) returns (k: nat)
    requires MayPass(cmp) && i < |cmp.run.cases|
    ensures k < |cmp.baseline.rows| && cmp.baseline.rows[k].name == cmp.run.cases[i].name
    ensures FateAt(cmp, i) == Classified(CompareCase(cmp.baseline.rows[k], cmp.run.cases[i], cmp.budget))
    ensures Accepted(FateAt(cmp, i).row.class_)
  {
    var name := cmp.run.cases[i].name;
    assert CaseNames(cmp.run.cases)[i] == name;
    assert name in RowNames(cmp.baseline.rows);
    k :| 0 <= k < |cmp.baseline.rows| && RowNames(cmp.baseline.rows)[k] == name;
    FateOfMatch(cmp, k, i);
    assert Agrees(cmp, cmp.baseline.rows[k], cmp.run.cases[i]);
    AgreesExactly(cmp, cmp.baseline.rows[k], cmp.run.cases[i]);
  }

  lemma NoRejection(cmp: Comparison, j: Rejection)
    requires MayPass(cmp)
    ensures !Justified(cmp, j)
  {
    match j.reason
    case DuplicateBaselineName => NoDuplicateIsUnique(RowNames(cmp.baseline.rows));
    case DuplicateCurrentName => NoDuplicateIsUnique(CaseNames(cmp.run.cases));
    case MissingCurrentCase =>
    case MissingBaselineCase =>
    case WarmupMismatch => EveryFateClassified(cmp);
    case WorkloadMetadataMismatch => EveryFateClassified(cmp);
    case NoComparableCases =>
      EveryFateClassified(cmp);
      RowAppears(Fates(cmp), 0);
    case _ => ChecksAreComplete(cmp.baseline, cmp.run);
  }

  lemma EveryFateClassified(cmp: Comparison)
    requires MayPass(cmp)
    ensures forall i: nat :: i < |cmp.run.cases| ==> Fates(cmp)[i].Classified?
  {
    forall i: nat | i < |cmp.run.cases| ensures Fates(cmp)[i].Classified? {
      var _ := EveryCaseAccepted(cmp, i);
    }
  }

  lemma NoFailure(cmp: Comparison)
    requires MayPass(cmp)
    ensures !HasFailure(Rows(Fates(cmp)))
  {
    var rows := Rows(Fates(cmp));
    forall t | 0 <= t < |rows| ensures Accepted(rows[t].class_) {
      var i := RowComesFrom(Fates(cmp), rows[t]);
      var _ := EveryCaseAccepted(cmp, i);
    }
  }

  // The gate's verdict, exactly.
  lemma GateExactly(cmp: Comparison)
    ensures NoneJustified(cmp) && !HasFailure(Rows(Fates(cmp))) <==> MayPass(cmp)
  {
    if NoneJustified(cmp) && !HasFailure(Rows(Fates(cmp))) {
      PassingMayPass(cmp);
    }
    if MayPass(cmp) {
      forall j ensures !Justified(cmp, j) {
        NoRejection(cmp, j);
      }
      NoFailure(cmp);
    }
  }

  // No case is silently skipped: it has a row, a rejection of its own, or the whole run was rejected.
  lemma NothingSkipped(cmp: Comparison, i: nat)
    requires i < |cmp.run.cases|
    ensures
      var c := cmp.run.cases[i];
      || (exists row :: row in Rows(Fates(cmp)) && row.name == c.name)
      || (exists j :: Justified(cmp, j) && j.caseName == Some(c.name))
      || (exists j :: Justified(cmp, j) && j.caseName == None)
  {
    var c := cmp.run.cases[i];
    var fate := FateAt(cmp, i);
    assert CaseNames(cmp.run.cases)[i] == c.name;
    if fate.Classified? {
      RowAppears(Fates(cmp), i);
      assert fate.row.name == c.name;
    } else if fate.WarmupDiffers? {
      assert Justified(cmp, Rejection(WarmupMismatch, Some(c.name)));
    } else if fate.WorkloadDiffers? {
      assert Justified(cmp, Rejection(WorkloadMetadataMismatch, Some(c.name)));
    } else {
      SkippedIsReported(cmp, i);
    }
  }

  lemma SkippedIsReported(cmp: Comparison, i: nat)
    requires i < |cmp.run.cases| && FateAt(cmp, i).Skipped?
    ensures
      || (exists j :: Justified(cmp, j) && j.caseName == Some(cmp.run.cases[i].name))
      || (exists j :: Justified(cmp, j) && j.caseName == None)
  {
    var name := cmp.run.cases[i].name;
    var rowNames, caseNames := RowNames(cmp.baseline.rows), CaseNames(cmp.run.cases);
    assert caseNames[i] == name;
    FindRowFinds(cmp.baseline.rows, name);
    if Duplicated(rowNames, name) {
      assert Justified(cmp, Rejection(DuplicateBaselineName, Some(name)));
    } else if Duplicated(caseNames, name) {
      assert Justified(cmp, Rejection(DuplicateCurrentName, Some(name)));
    } else if name !in rowNames {
      assert Justified(cmp, Rejection(MissingBaselineCase, Some(name)));
    } else {
      RunRejected(cmp);
    }
  }

  lemma RunRejected(cmp: Comparison)
    requires ProvenanceDiffers(cmp.baseline, cmp.run)
    ensures exists j :: Justified(cmp, j) && j.caseName == None
  {
    var b, r := cmp.baseline, cmp.run;
    if RunCheckFails(b, r, BuildProfileMismatch) {
      assert Justified(cmp, Rejection(BuildProfileMismatch, None));
    } else if RunCheckFails(b, r, HardwareIdentityMismatch) {
      assert Justified(cmp, Rejection(HardwareIdentityMismatch, None));
    } else if RunCheckFails(b, r, CudaEnvironmentMismatch) {
      assert Justified(cmp, Rejection(CudaEnvironmentMismatch, None));
    } else if RunCheckFails(b, r, PowerClockMismatch) {
      assert Justified(cmp, Rejection(PowerClockMismatch, None));
    } else if RunCheckFails(b, r, HostIdentityMismatch) {
      assert Justified(cmp, Rejection(HostIdentityMismatch, None));
    } else {
      assert Justified(cmp, Rejection(FeatureSetMismatch, None));
    }
  }

  // A baseline in the old format records no dispersion, so it can never pass an enforced gate.
  lemma LegacyNeverPasses(cmp: Comparison)
    requires forall k :: 0 <= k < |cmp.baseline.rows| ==> !cmp.baseline.rows[k].dispersionKnown
    ensures !MayPass(cmp)
  {
    if MayPass(cmp) {
      var k := EveryCaseAccepted(cmp, 0);
      assert false;
    }
  }
}
