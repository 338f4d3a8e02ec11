// Whole runs of the WalkSAT engine: initialise, step any number of times, reduce to the best
// walker and extract its assignment (cu/satsolver.cu). Every launch takes its own schedule.

module SatRun {
  import opened Words
  import opened Launch
  import opened GridReduce
  import opened BestReduce
  import opened SatFormula
  import opened SatWords
  import opened SatStep
  import opened SatKernel

  // ---- runs as functions of the seeds ----

  ghost function InitRows(f: Formula, nWalkers: nat, seed: u32): (rows: seq<seq<Byte>>)
    ensures |rows| == nWalkers
  {
    seq(nWalkers, w requires 0 <= w < nWalkers => InitRow(f.nVars, InitState(seed, w)))
  }

  ghost function StepRows(f: Formula, rows: seq<seq<Byte>>, seed: u32): (after: seq<seq<Byte>>)
    requires f.Valid()
    ensures |after| == |rows|
  {
    seq(|rows|, w requires 0 <= w < |rows| => StepRow(f, rows[w], StepState(seed, w)))
  }

  // The walkers after initialisation with `seed` and one step per element of `steps`.
  ghost function RunRows(f: Formula, nWalkers: nat, seed: u32, steps: seq<u32>): (rows: seq<seq<Byte>>)
    requires f.Valid()
    ensures |rows| == nWalkers
  {
    if steps == [] then InitRows(f, nWalkers, seed)
    else StepRows(f, RunRows(f, nWalkers, seed, steps[..|steps| - 1]), steps[|steps| - 1])
  }

  lemma {:induction false} RunKeepsBinary(f: Formula, nWalkers: nat, seed: u32, steps: seq<u32>, w: nat)
    requires f.Valid() && w < nWalkers
    ensures Binary(RunRows(f, nWalkers, seed, steps)[w]) && |RunRows(f, nWalkers, seed, steps)[w]| == f.nVars
    decreases |steps|
  {
    if steps == [] {
      InitRowIsBinary(f.nVars, InitState(seed, w));
    } else {
      var n := |steps| - 1;
      RunKeepsBinary(f, nWalkers, seed, steps[..n], w);
      StepKeepsBinary(f, RunRows(f, nWalkers, seed, steps[..n])[w], StepState(steps[n], w));
    }
  }

  // A walker that has a satisfying assignment keeps it for the rest of the run.
  lemma {:induction false} SolvedWalkerStays(f: Formula, nWalkers: nat, seed: u32, steps: seq<u32>, more: seq<u32>, w: nat)
    requires f.Valid() && w < nWalkers
    ensures Satisfies(f, RunRows(f, nWalkers, seed, steps)[w]) ==>
      RunRows(f, nWalkers, seed, steps + more)[w] == RunRows(f, nWalkers, seed, steps)[w]
    decreases |more|
  {
    if more == [] {
      assert steps + more == steps;
    } else {
      var n := |more| - 1;
      assert (steps + more)[..|steps + more| - 1] == steps + more[..n];
      SolvedWalkerStays(f, nWalkers, seed, steps, more[..n], w);
    }
  }

  // ---- the device buffers hold a run ----

  // Walker w's row is `row` and its score counts that row's unsatisfied clauses.
  ghost predicate HoldsWalker(asgn: seq<Byte>, scores: seq<i32>, f: Formula, nWalkers: nat, w: nat, row: seq<Byte>)
    requires f.Valid() && w < nWalkers && BuffersFit(asgn, scores, f, nWalkers)
  {
    WalkerRow(asgn, w, f, nWalkers) == row && scores[w] == Score(f, row)
  }

  ghost predicate HoldsRows(asgn: seq<Byte>, scores: seq<i32>, f: Formula, nWalkers: nat, rows: seq<seq<Byte>>)
    requires f.Valid() && |rows| == nWalkers && BuffersFit(asgn, scores, f, nWalkers)
  {
    forall w: nat :: w < nWalkers ==> HoldsWalker(asgn, scores, f, nWalkers, w, rows[w])
  }

  // A thread moves its own walker and nobody else's.
  lemma MoveOne(asgn: seq<Byte>, scores: seq<i32>, asgn': seq<Byte>, scores': seq<i32>,
                f: Formula, nWalkers: nat, t: nat, moved: seq<Byte>, w: nat, row: seq<Byte>)
    requires f.Valid() && w < nWalkers && BuffersFit(asgn, scores, f, nWalkers)
    requires WalkerMoved(asgn, scores, asgn', scores', f, nWalkers, t, moved)
    ensures BuffersFit(asgn', scores', f, nWalkers)
    ensures w != t && HoldsWalker(asgn, scores, f, nWalkers, w, row) ==> HoldsWalker(asgn', scores', f, nWalkers, w, row)
    ensures w == t ==> HoldsWalker(asgn', scores', f, nWalkers, w, moved)
  {
    if w != t && t < nWalkers {
      RowInside(w, nWalkers, f.nVars);
      OtherRowKept(asgn, asgn', t, w, f.nVars);
    }
  }

  method InitLaunch(asgn: array<Byte>, scores: array<i32>, packed: seq<i32>, f: Formula, nWalkers: nat,
                    seed: u32, threads: nat, order: seq<nat>)
    requires f.Valid() && Encodes(packed, f) && BuffersFit(asgn[..], scores[..], f, nWalkers)
    requires IntGrid(order, threads, nWalkers)
    modifies asgn, scores
    ensures HoldsRows(asgn[..], scores[..], f, nWalkers, InitRows(f, nWalkers, seed))
  {
    ghost var target := InitRows(f, nWalkers, seed);
    for s := 0 to |order|
      invariant forall w: nat :: w < nWalkers && Ran(order, s, w) ==>
        HoldsWalker(asgn[..], scores[..], f, nWalkers, w, target[w])
    {
      ThreadIdIsPlain(order[s]);
      var t: nat := ThreadId(order[s]);
      ghost var a, b := asgn[..], scores[..];
      InitThread(asgn, scores, packed, f, nWalkers, seed, t);
      RanStep(order, threads, s);
      forall w: nat | w < nWalkers && Ran(order, s + 1, w)
        ensures HoldsWalker(asgn[..], scores[..], f, nWalkers, w, target[w])
      {
        MoveOne(a, b, asgn[..], scores[..], f, nWalkers, t, InitRow(f.nVars, InitState(seed, t)), w, target[w]);
      }
    }
    RanAll(order, threads);
  }

  method StepLaunch(asgn: array<Byte>, scores: array<i32>, packed: seq<i32>, f: Formula, nWalkers: nat,
                    seed: u32, threads: nat, order: seq<nat>, ghost rows: seq<seq<Byte>>)
    requires f.Valid() && Encodes(packed, f) && BuffersFit(asgn[..], scores[..], f, nWalkers)
    requires IntGrid(order, threads, nWalkers)
    requires |rows| == nWalkers && HoldsRows(asgn[..], scores[..], f, nWalkers, rows)
    modifies asgn, scores
    ensures HoldsRows(asgn[..], scores[..], f, nWalkers, StepRows(f, rows, seed))
  {
    ghost var target := StepRows(f, rows, seed);
    for s := 0 to |order|
      invariant forall w: nat :: w < nWalkers ==>
        HoldsWalker(asgn[..], scores[..], f, nWalkers, w, if Ran(order, s, w) then target[w] else rows[w])
    {
      ThreadIdIsPlain(order[s]);
      var t: nat := ThreadId(order[s]);
      ghost var a, b := asgn[..], scores[..];
      StepThread(asgn, scores, packed, f, nWalkers, seed, t);
      RanStep(order, threads, s);
      ghost var moved := if t < nWalkers then target[t] else [];
      assert t < nWalkers ==> HoldsWalker(a, b, f, nWalkers, t, rows[t]);
      forall w: nat | w < nWalkers
        ensures HoldsWalker(asgn[..], scores[..], f, nWalkers, w, if Ran(order, s + 1, w) then target[w] else rows[w])
      {
        MoveOne(a, b, asgn[..], scores[..], f, nWalkers, t, moved, w, if Ran(order, s, w) then target[w] else rows[w]);
      }
    }
    RanAll(order, threads);
  }

  // ---- flags, solution check, extraction ----

  function FlagRow(f: Formula, asgn: seq<Byte>): (flags: seq<Byte>)
    ensures |flags| == |f.clauses|
  {
    seq(|f.clauses|, c requires 0 <= c < |f.clauses| => if Holds(f, asgn, c) then 1 else 0)
  }

  // The flag loop of one satsolver_aux_update thread, on the flag row at `base`.
  method FlagsInPlace(asgn: array<Byte>, row: nat, flags: array<Byte>, base: nat, packed: seq<i32>, f: Formula)
    requires f.Valid() && Encodes(packed, f) && asgn != flags
    requires row + f.nVars <= asgn.Length && base + |f.clauses| <= flags.Length
    modifies flags
    ensures flags[base..base + |f.clauses|] == FlagRow(f, asgn[row..row + f.nVars])
    ensures forall i :: 0 <= i < flags.Length && !(base <= i < base + |f.clauses|) ==> flags[i] == old(flags[i])
  {
    ghost var target := FlagRow(f, asgn[row..row + f.nVars]);
    for c := 0 to |f.clauses|
      invariant asgn[..] == old(asgn[..])
      invariant flags[base..base + c] == target[..c]
      invariant forall i :: 0 <= i < flags.Length && !(base <= i < base + |f.clauses|) ==> flags[i] == old(flags[i])
    {
      var sat := EvalClause(asgn, row, packed, f, c);
      flags[base + c] := if sat then 1 else 0;
      assert flags[base..base + c + 1] == flags[base..base + c] + [flags[base + c]];
      assert target[..c + 1] == target[..c] + [target[c]];
    }
    assert target[..|f.clauses|] == target;
  }

  ghost predicate HoldsFlags(asgn: seq<Byte>, flags: seq<Byte>, f: Formula, nWalkers: nat, w: nat)
    requires w < nWalkers && nWalkers * f.nVars <= |asgn| && nWalkers * |f.clauses| <= |flags|
  {
    RowInside(w, nWalkers, |f.clauses|);
    Row(flags, w, |f.clauses|) == FlagRow(f, WalkerRow(asgn, w, f, nWalkers))
  }

  // Flag (w, c) is 1 or 0 as clause c of the buffer holds or not in walker w's row.
  ghost predicate FlagIs(asgn: seq<Byte>, flags: seq<Byte>, packed: seq<i32>, f: Formula, nWalkers: nat, w: nat, c: nat)
    requires w < nWalkers && c < |f.clauses| && nWalkers * f.nVars <= |asgn| && nWalkers * |f.clauses| <= |flags|
  {
    CellInside(nWalkers, |f.clauses|, w, c);
    flags[w * |f.clauses| + c] == if WordsHold(packed, c, f.clauseLen, WalkerRow(asgn, w, f, nWalkers)) then 1 else 0
  }

  lemma FlagsOnWords(asgn: seq<Byte>, flags: seq<Byte>, packed: seq<i32>, f: Formula, nWalkers: nat, w: nat, c: nat)
    requires f.Valid() && Encodes(packed, f) && w < nWalkers && c < |f.clauses|
    requires nWalkers * f.nVars <= |asgn| && nWalkers * |f.clauses| <= |flags|
    requires HoldsFlags(asgn, flags, f, nWalkers, w)
    ensures FlagIs(asgn, flags, packed, f, nWalkers, w, c)
  {
    var row := WalkerRow(asgn, w, f, nWalkers);
    ClauseIsWords(packed, f, row, c);
    CellInside(nWalkers, |f.clauses|, w, c);
    RowInside(w, nWalkers, |f.clauses|);
    assert Row(flags, w, |f.clauses|)[c] == FlagRow(f, row)[c];
  }

  // The flags of satsolver_aux_update: entry (w, c) says whether walker w satisfies clause c.
  method FlagsLaunch(asgn: array<Byte>, flags: array<Byte>, packed: seq<i32>, f: Formula, nWalkers: nat,
                     threads: nat, order: seq<nat>)
    requires f.Valid() && Encodes(packed, f) && asgn != flags
    requires nWalkers * f.nVars <= asgn.Length && nWalkers * |f.clauses| <= flags.Length
    requires IntGrid(order, threads, nWalkers)
    modifies flags
    ensures forall w: nat :: w < nWalkers ==> HoldsFlags(asgn[..], flags[..], f, nWalkers, w)
    ensures forall w: nat, c: nat :: w < nWalkers && c < |f.clauses| ==> FlagIs(asgn[..], flags[..], packed, f, nWalkers, w, c)
  {
    for s := 0 to |order|
      invariant forall w: nat :: w < nWalkers && Ran(order, s, w) ==> HoldsFlags(asgn[..], flags[..], f, nWalkers, w)
    {
      ThreadIdIsPlain(order[s]);
      var t: nat := ThreadId(order[s]);
      ghost var before := flags[..];
      RanStep(order, threads, s);
      if t < nWalkers {
        RowInside(t, nWalkers, f.nVars);
        RowInside(t, nWalkers, |f.clauses|);
        FlagsInPlace(asgn, t * f.nVars, flags, t * |f.clauses|, packed, f);
        assert HoldsFlags(asgn[..], flags[..], f, nWalkers, t);
        assert OnlyRowChanged(before, flags[..], t, |f.clauses|);
        forall w: nat | w < nWalkers && w != t && Ran(order, s, w)
          ensures HoldsFlags(asgn[..], flags[..], f, nWalkers, w)
        {
          RowInside(w, nWalkers, |f.clauses|);
          OtherRowKept(before, flags[..], t, w, |f.clauses|);
        }
      }
    }
    RanAll(order, threads);
    forall w: nat, c: nat | w < nWalkers && c < |f.clauses| ensures FlagIs(asgn[..], flags[..], packed, f, nWalkers, w, c) {
      FlagsOnWords(asgn[..], flags[..], packed, f, nWalkers, w, c);
    }
  }

  // satsolver_check_solution
  method CheckLaunch(scores: array<i32>, solved: array<Byte>, nWalkers: nat, threads: nat, order: seq<nat>)
    requires nWalkers <= scores.Length && nWalkers <= solved.Length
    requires IntGrid(order, threads, nWalkers)
    modifies solved
    ensures forall w: nat :: w < nWalkers ==> solved[w] == if scores[w] == 0 then 1 else 0
  {
    for s := 0 to |order|
      invariant forall w: nat :: w < nWalkers && Ran(order, s, w) ==> solved[w] == if scores[w] == 0 then 1 else 0
    {
      ThreadIdIsPlain(order[s]);
      var t: nat := ThreadId(order[s]);
      RanStep(order, threads, s);
      if t < nWalkers {
        solved[t] := if scores[t] == 0 then 1 else 0;
      }
    }
    RanAll(order, threads);
  }

  // satsolver_extract: an index out of range selects walker 0.
  method ExtractLaunch(asgn: array<Byte>, bestWalker: i32, output: array<Byte>, f: Formula, nWalkers: nat,
                       threads: nat, order: seq<nat>)
    requires nWalkers > 0 && nWalkers * f.nVars <= asgn.Length && f.nVars <= output.Length && asgn != output
    requires IntGrid(order, threads, f.nVars)
    modifies output
    ensures output[..f.nVars] == WalkerRow(asgn[..], if 0 <= bestWalker < nWalkers then bestWalker else 0, f, nWalkers)
    ensures output[f.nVars..] == old(output[f.nVars..])
  {
    var bw := if bestWalker < 0 || bestWalker >= nWalkers then 0 else bestWalker;
    RowInside(bw, nWalkers, f.nVars);
    ghost var row := WalkerRow(asgn[..], bw, f, nWalkers);
    for s := 0 to |order|
      invariant forall v: nat :: v < f.nVars && Ran(order, s, v) ==> output[v] == row[v]
      invariant output[f.nVars..] == old(output[f.nVars..])
    {
      ThreadIdIsPlain(order[s]);
      var t: nat := ThreadId(order[s]);
      RanStep(order, threads, s);
      if t < f.nVars {
        output[t] := asgn[bw * f.nVars + t];
      }
    }
    RanAll(order, threads);
  }

  // ---- the whole engine ----

  // The schedules and launch shapes of one run; every launch has its own.
  datatype Shape = Shape(threads: nat, initOrder: seq<nat>, stepOrders: seq<seq<nat>>,
                         reduction: GridShape, extractThreads: nat, extractOrder: seq<nat>)

  ghost predicate Legal(shape: Shape, f: Formula, nWalkers: nat, steps: nat) {
    && IntGrid(shape.initOrder, shape.threads, nWalkers)
    && |shape.stepOrders| == steps && (forall i :: 0 <= i < steps ==> IntGrid(shape.stepOrders[i], shape.threads, nWalkers))
    && Covers(shape.reduction, nWalkers)
    && IntGrid(shape.extractOrder, shape.extractThreads, f.nVars)
  }

  method Walk(asgn: array<Byte>, scores: array<i32>, packed: seq<i32>, f: Formula, nWalkers: nat,
              seed: u32, steps: seq<u32>, shape: Shape)
    requires f.Valid() && Encodes(packed, f) && BuffersFit(asgn[..], scores[..], f, nWalkers)
    requires Legal(shape, f, nWalkers, |steps|)
    modifies asgn, scores
    ensures HoldsRows(asgn[..], scores[..], f, nWalkers, RunRows(f, nWalkers, seed, steps))
  {
    InitLaunch(asgn, scores, packed, f, nWalkers, seed, shape.threads, shape.initOrder);
    for i := 0 to |steps|
      invariant HoldsRows(asgn[..], scores[..], f, nWalkers, RunRows(f, nWalkers, seed, steps[..i]))
    {
      ghost var rows := RunRows(f, nWalkers, seed, steps[..i]);
      StepLaunch(asgn, scores, packed, f, nWalkers, steps[i], shape.threads, shape.stepOrders[i], rows);
      assert steps[..i + 1][..i] == steps[..i];
    }
    assert steps[..|steps|] == steps;
  }

  // The reported best score counts the clauses of the buffer that the extracted assignment leaves
  // unsatisfied and is the least such count of any walker. It is zero exactly when some walker
  // satisfies every clause, and then the extracted assignment does.
  method Solve(asgn: array<Byte>, scores: array<i32>, output: array<Byte>, packed: seq<i32>, f: Formula,
               nWalkers: nat, seed: u32, steps: seq<u32>, shape: Shape) returns (best: Pair)
    requires f.Valid() && Encodes(packed, f) && 0 < nWalkers <= INT_MAX
    requires BuffersFit(asgn[..], scores[..], f, nWalkers) && f.nVars <= output.Length
    requires asgn != output && Legal(shape, f, nWalkers, |steps|)
    modifies asgn, scores, output
    ensures
      var rows := RunRows(f, nWalkers, seed, steps);
      && 0 <= best.walker < nWalkers && output[..f.nVars] == rows[best.walker]
      && best.score == |UnsatWords(packed, |f.clauses|, f.clauseLen, output[..f.nVars])|
      && (forall w :: 0 <= w < nWalkers ==> best.score <= |UnsatWords(packed, |f.clauses|, f.clauseLen, rows[w])|)
      && (best.score == 0 <==> exists w :: 0 <= w < nWalkers && SatisfiesWords(packed, |f.clauses|, f.clauseLen, rows[w]))
      && (best.score == 0 ==> SatisfiesWords(packed, |f.clauses|, f.clauseLen, output[..f.nVars]))
  {
    Walk(asgn, scores, packed, f, nWalkers, seed, steps, shape);
    ghost var rows := RunRows(f, nWalkers, seed, steps);
    best := DeviceBest(scores[..nWalkers], shape.reduction);
    ExtractLaunch(asgn, best.walker, output, f, nWalkers, shape.extractThreads, shape.extractOrder);
    BestIsLeastScore(asgn[..], scores[..], f, nWalkers, rows, best);
    forall w | 0 <= w < nWalkers
      ensures Score(f, rows[w]) == |UnsatWords(packed, |f.clauses|, f.clauseLen, rows[w])|
      ensures Satisfies(f, rows[w]) <==> SatisfiesWords(packed, |f.clauses|, f.clauseLen, rows[w])
    {
      FormulaIsWords(packed, f, rows[w]);
    }
  }

  lemma BestIsLeastScore(asgn: seq<Byte>, scores: seq<i32>, f: Formula, nWalkers: nat, rows: seq<seq<Byte>>, best: Pair)
    requires f.Valid() && 0 < nWalkers == |rows| && BuffersFit(asgn, scores, f, nWalkers)
    requires HoldsRows(asgn, scores, f, nWalkers, rows) && IsBestWalker(scores[..nWalkers], best)
    ensures WalkerRow(asgn, best.walker, f, nWalkers) == rows[best.walker] && best.score == Score(f, rows[best.walker])
    ensures forall w :: 0 <= w < nWalkers ==> best.score <= Score(f, rows[w])
    ensures best.score == 0 <==> exists w :: 0 <= w < nWalkers && Satisfies(f, rows[w])
    ensures best.score == 0 ==> Satisfies(f, rows[best.walker])
  {
    assert HoldsWalker(asgn, scores, f, nWalkers, best.walker, rows[best.walker]);
    forall w | 0 <= w < nWalkers ensures best.score <= Score(f, rows[w]) {
      assert HoldsWalker(asgn, scores, f, nWalkers, w, rows[w]);
      assert scores[..nWalkers][w] == scores[w];
    }
  }
}
