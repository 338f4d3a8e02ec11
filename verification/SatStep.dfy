// One WalkSAT iteration of one walker (cu/satsolver.cu:158-257).

module SatStep {
  import opened Words
  import opened Lcg
  import opened RankDraw
  import opened SatFormula

  // lcg_float(rng) < 0.57f. Both sides are multiples of 2^-24 (0.57f is 9563013 * 2^-24 and
  // the conversion of a 24-bit number is exact), so the comparison is one of numerators.
  const WALK_NUMERATOR: int := 9563013

  predicate TakesRandomWalk(rng: u32) {
    rng / 256 < WALK_NUMERATOR
  }

  // lcg_next(seed ^ ((unsigned int)walker * multiplier))
  function WalkerState(seed: u32, walker: nat, multiplier: u32): u32 {
    Pow2Of32();
    LcgNext(Xor(seed, WrapU32(walker * multiplier), 32))
  }

  function InitState(seed: u32, walker: nat): u32 {
    WalkerState(seed, walker, 2654435761)
  }

  function StepState(seed: u32, walker: nat): u32 {
    WalkerState(seed, walker, 2246822519)
  }

  // Bit 16 of successive draws.
  function InitRow(nVars: nat, start: u32): (row: seq<Byte>)
    ensures |row| == nVars
  {
    seq(nVars, v requires 0 <= v < nVars => Advance(start, v + 1) / 65536 % 2)
  }

  lemma InitRowIsBinary(nVars: nat, start: u32)
    ensures Binary(InitRow(nVars, start))
  {
  }

  // ---- the random branch ----

  function ValidBelow(clause: seq<Literal>, nVars: nat, n: nat): (count: nat)
    requires n <= |clause|
    ensures count <= n
    ensures count > 0 <==> exists l: nat :: l < n && clause[l].v < nVars
  {
    if n == 0 then 0 else ValidBelow(clause, nVars, n - 1) + (if clause[n - 1].v < nVars then 1 else 0)
  }

  // Index of the valid literal with exactly `rank` valid literals before it.
  function NthValid(clause: seq<Literal>, nVars: nat, rank: nat, n: nat): (l: nat)
    requires n <= |clause| && rank < ValidBelow(clause, nVars, n)
    ensures l < n && clause[l].v < nVars && ValidBelow(clause, nVars, l) == rank
  {
    if rank < ValidBelow(clause, nVars, n - 1) then NthValid(clause, nVars, rank, n - 1) else n - 1
  }

  // Variable flipped by the random branch, or -1 when every literal is invalid.
  function RandomTarget(clause: seq<Literal>, nVars: nat, rng: u32): (v: int)
    ensures v == -1 || 0 <= v < nVars
  {
    var count := ValidBelow(clause, nVars, |clause|);
    if count == 0 then -1 else clause[NthValid(clause, nVars, LcgNext(rng) / 256 % count, |clause|)].v
  }

  // ---- the greedy branch ----

  // int best_break = n_clauses + 1; the sum wraps at INT_MAX clauses.
  function NoBreakYet(nClauses: nat): i32 {
    WrapI32(nClauses + 1)
  }

  // Smallest break count and its variable over the first n literals, first one winning ties.
  function GreedyBelow(f: Formula, asgn: seq<Byte>, clause: seq<Literal>, n: nat): (best: (int, int))
    requires n <= |clause|
    ensures best.1 == -1 || 0 <= best.1 < |asgn|
  {
    if n == 0 then (NoBreakYet(|f.clauses|), -1)
    else
      var best := GreedyBelow(f, asgn, clause, n - 1);
      var v := clause[n - 1].v;
      if v < |asgn| && Breaks(f, asgn, v) < best.0 then (Breaks(f, asgn, v), v) else best
  }

  function GreedyTarget(f: Formula, asgn: seq<Byte>, clause: seq<Literal>): (v: int)
    ensures v == -1 || 0 <= v < |asgn|
  {
    GreedyBelow(f, asgn, clause, |clause|).1
  }

  // `l` is the first valid literal of least break count among the first n.
  ghost predicate FirstLeastBreak(f: Formula, asgn: seq<Byte>, clause: seq<Literal>, n: nat, l: nat)
    requires n <= |clause|
  {
    && l < n && clause[l].v < |asgn|
    && forall m: nat :: m < n && clause[m].v < |asgn| ==>
         && Breaks(f, asgn, clause[l].v) <= Breaks(f, asgn, clause[m].v)
         && (m < l ==> Breaks(f, asgn, clause[l].v) < Breaks(f, asgn, clause[m].v))
  }

  // Every break count is below the start value, unless that has wrapped.
  lemma BreaksBelowStart(f: Formula, asgn: seq<Byte>, v: nat)
    requires f.Valid() && v < |asgn|
    ensures Breaks(f, asgn, v) < NoBreakYet(|f.clauses|) <==> |f.clauses| < INT_MAX
  {
  }

  lemma {:induction false} GreedyBelowIsFirstLeast(f: Formula, asgn: seq<Byte>, clause: seq<Literal>, n: nat)
    requires f.Valid() && n <= |clause|
    ensures
      var best := GreedyBelow(f, asgn, clause, n);
      if ValidBelow(clause, |asgn|, n) == 0 || |f.clauses| == INT_MAX then best == (NoBreakYet(|f.clauses|), -1)
      else exists l: nat ::
        FirstLeastBreak(f, asgn, clause, n, l) && best == (Breaks(f, asgn, clause[l].v), clause[l].v)
    decreases n
  {
    if n > 0 {
      GreedyBelowIsFirstLeast(f, asgn, clause, n - 1);
      var best := GreedyBelow(f, asgn, clause, n - 1);
      var v := clause[n - 1].v;
      if v < |asgn| {
        BreaksBelowStart(f, asgn, v);
      }
      if |f.clauses| == INT_MAX || (ValidBelow(clause, |asgn|, n - 1) == 0 && v >= |asgn|) {
      } else if v < |asgn| && Breaks(f, asgn, v) < best.0 {
        assert FirstLeastBreak(f, asgn, clause, n, n - 1);
      } else {
        var l: nat :| FirstLeastBreak(f, asgn, clause, n - 1, l)
                      && best == (Breaks(f, asgn, clause[l].v), clause[l].v);
        assert FirstLeastBreak(f, asgn, clause, n, l);
      }
    }
  }

  // The greedy branch finds a variable exactly when there is a valid literal and the start value
  // has not wrapped.
  lemma GreedyFindsExactly(f: Formula, asgn: seq<Byte>, clause: seq<Literal>)
    requires f.Valid()
    ensures GreedyTarget(f, asgn, clause) >= 0 <==>
      (exists l: nat :: l < |clause| && clause[l].v < |asgn|) && |f.clauses| < INT_MAX
  {
    GreedyBelowIsFirstLeast(f, asgn, clause, |clause|);
  }

  // ---- the whole step as a function of the walker's row ----

  ghost function FirstDraw(f: Formula, asgn: seq<Byte>, rng: u32): u32
    requires f.Valid() && Score(f, asgn) > 0
  {
    AcceptedDraw(rng, Score(f, asgn))
  }

  // The unsatisfied clause the walker works on.
  ghost function ChosenClause(f: Formula, asgn: seq<Byte>, rng: u32): (c: nat)
    requires f.Valid() && Score(f, asgn) > 0
    ensures c < |f.clauses| && !Holds(f, asgn, c)
    ensures UnsatBelow(f, asgn, c) == FirstDraw(f, asgn, rng) % Score(f, asgn)
  {
    NthUnsat(f, asgn, FirstDraw(f, asgn, rng) % Score(f, asgn), |f.clauses|)
  }

  ghost function FlipTarget(f: Formula, asgn: seq<Byte>, rng: u32): (v: int)
    requires f.Valid() && Score(f, asgn) > 0
    ensures v == -1 || 0 <= v < |asgn|
  {
    var clause := f.clauses[ChosenClause(f, asgn, rng)];
    var coin := LcgNext(FirstDraw(f, asgn, rng));
    if TakesRandomWalk(coin) then RandomTarget(clause, |asgn|, coin) else GreedyTarget(f, asgn, clause)
  }

  ghost function StepRow(f: Formula, asgn: seq<Byte>, rng: u32): (row: seq<Byte>)
    requires f.Valid()
    ensures |row| == |asgn|
  {
    if Score(f, asgn) == 0 then asgn
    else
      var v := FlipTarget(f, asgn, rng);
      if v >= 0 then Flipped(asgn, v) else asgn
  }

  // ---- what a step achieves ----

  ghost predicate IsGreedy(f: Formula, asgn: seq<Byte>, rng: u32)
    requires f.Valid() && Score(f, asgn) > 0
  {
    !TakesRandomWalk(LcgNext(FirstDraw(f, asgn, rng)))
  }

  // The flipped variable belongs to the chosen clause, and there is one unless every literal of
  // that clause is invalid or the step is greedy on INT_MAX clauses.
  lemma TargetInChosenClause(f: Formula, asgn: seq<Byte>, rng: u32)
    requires f.Valid() && Score(f, asgn) > 0
    ensures
      var clause := f.clauses[ChosenClause(f, asgn, rng)];
      var v := FlipTarget(f, asgn, rng);
      && (v >= 0 ==> exists l :: 0 <= l < |clause| && clause[l].v == v)
      && (v == -1 <==> (forall l :: 0 <= l < |clause| ==> clause[l].v >= |asgn|)
                       || (IsGreedy(f, asgn, rng) && |f.clauses| == INT_MAX))
  {
    var clause := f.clauses[ChosenClause(f, asgn, rng)];
    GreedyBelowIsFirstLeast(f, asgn, clause, |clause|);
  }

  // A flip satisfies the chosen clause, and the score moves by exactly the clauses broken
  // and made, with at least one made.
  lemma FlipPaysForItself(f: Formula, asgn: seq<Byte>, rng: u32)
    requires f.Valid() && Score(f, asgn) > 0
    ensures
      var v := FlipTarget(f, asgn, rng);
      v >= 0 ==>
        && Holds(f, StepRow(f, asgn, rng), ChosenClause(f, asgn, rng))
        && Score(f, StepRow(f, asgn, rng)) == Score(f, asgn) + Breaks(f, asgn, v) - Makes(f, asgn, v)
        && Makes(f, asgn, v) >= 1
  {
    if FlipTarget(f, asgn, rng) >= 0 {
      TargetInChosenClause(f, asgn, rng);
      var c, v := ChosenClause(f, asgn, rng), FlipTarget(f, asgn, rng);
      var clause := f.clauses[c];
      var l :| 0 <= l < |clause| && clause[l].v == v;
      FlipSatisfies(asgn, clause, l);
      FlipBalance(f, asgn, v, |f.clauses|);
      MakesAtLeastOne(f, asgn, v, |f.clauses|, c);
    }
  }

  // The step is greedy and literal l of the chosen clause can be flipped without a break.
  ghost predicate IsFreeMove(f: Formula, asgn: seq<Byte>, rng: u32, l: nat)
    requires f.Valid() && Score(f, asgn) > 0
  {
    var clause := f.clauses[ChosenClause(f, asgn, rng)];
    && IsGreedy(f, asgn, rng)
    && l < |clause| && clause[l].v < |asgn| && Breaks(f, asgn, clause[l].v) == 0
  }

  // When the greedy branch is taken and some variable of the chosen clause breaks nothing, the
  // score strictly falls, exactly for fewer than INT_MAX clauses.
  lemma FreeMoveLowersScore(f: Formula, asgn: seq<Byte>, rng: u32, l: nat)
    requires f.Valid() && Score(f, asgn) > 0
    ensures IsFreeMove(f, asgn, rng, l) ==>
      (Score(f, StepRow(f, asgn, rng)) < Score(f, asgn) <==> |f.clauses| < INT_MAX)
  {
    if IsFreeMove(f, asgn, rng, l) {
      var clause := f.clauses[ChosenClause(f, asgn, rng)];
      GreedyBelowIsFirstLeast(f, asgn, clause, |clause|);
      if |f.clauses| < INT_MAX {
        var m: nat :| FirstLeastBreak(f, asgn, clause, |clause|, m) && FlipTarget(f, asgn, rng) == clause[m].v;
        assert Breaks(f, asgn, clause[m].v) == 0;
        FlipPaysForItself(f, asgn, rng);
      }
    }
  }

  // INT_MAX copies of the clause (x0).
  ghost function ManyClauses(): (f: Formula)
    ensures f.Valid() && |f.clauses| == INT_MAX && f.nVars == 1
  {
    Formula(1, 1, seq(INT_MAX, _ => [Literal(0, false)]))
  }

  lemma {:induction false} ManyUnsat(n: nat)
    requires n <= INT_MAX
    ensures UnsatBelow(ManyClauses(), [0], n) == n
    decreases n
  {
    if n > 0 {
      ManyUnsat(n - 1);
      assert !LitHolds([0], Literal(0, false));
      assert !Holds(ManyClauses(), [0], n - 1);
    }
  }

  // From state 4 the first draw is accepted and the next one is greedy.
  lemma DrawsFromFour()
    ensures AcceptedDraw(4, INT_MAX) == 1020562323 && !TakesRandomWalk(LcgNext(1020562323))
  {
    assert LcgNext(4) == 1020562323 && LcgNext(1020562323) == 2754714582;
    assert Threshold(INT_MAX) == 2;
  }

  // On them a greedy step is stuck, here from generator state 4, although flipping x0 would
  // satisfy everything.
  lemma GreedyStuckAtMax()
    ensures Score(ManyClauses(), [0]) == INT_MAX && Satisfies(ManyClauses(), Flipped([0], 0))
    ensures IsGreedy(ManyClauses(), [0], 4) && StepRow(ManyClauses(), [0], 4) == [0]
  {
    var f := ManyClauses();
    ManyUnsat(INT_MAX);
    assert Flipped([0], 0) == [1] && LitHolds([1], Literal(0, false));
    forall c: nat | c < |f.clauses| ensures Holds(f, [1], c) {
      assert LitHolds([1], f.clauses[c][0]);
    }
    DrawsFromFour();
    TargetInChosenClause(f, [0], 4);
  }

  lemma StepKeepsBinary(f: Formula, asgn: seq<Byte>, rng: u32)
    requires f.Valid() && Binary(asgn)
    ensures Binary(StepRow(f, asgn, rng))
  {
  }
}
