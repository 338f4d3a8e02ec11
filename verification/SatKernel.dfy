// The WalkSAT kernels on device buffers: assignments are one flat array of rows, each
// thread works in place on its walker's row, and a launch runs the threads in any order.

module SatKernel {
  import opened Words
  import opened Lcg
  import opened RankDraw
  import opened Launch
  import opened SatFormula
  import opened SatWords
  import opened SatStep

  // `asgn[base..base + nVars]` is the walker's row.
  ghost function RowAt(asgn: array<Byte>, base: nat, f: Formula): seq<Byte>
    requires base + f.nVars <= asgn.Length
    reads asgn
  {
    asgn[base..base + f.nVars]
  }

  // Literal l of clause c, as it sits in the device buffer.
  method ReadLiteral(packed: seq<i32>, f: Formula, c: nat, l: nat) returns (lit: Literal)
    requires f.Valid() && Encodes(packed, f) && c < |f.clauses| && l < f.clauseLen
    ensures lit == f.clauses[c][l]
  {
    ghost var index := FlatIndex(f, c, l);
    lit := Decode(packed[c * f.clauseLen + l]);
  }

  // cu/satsolver.cu:48-65
  method EvalClause(asgn: array<Byte>, base: nat, packed: seq<i32>, f: Formula, c: nat) returns (sat: bool)
    requires f.Valid() && Encodes(packed, f) && c < |f.clauses| && base + f.nVars <= asgn.Length
    ensures sat == Holds(f, RowAt(asgn, base, f), c)
    ensures sat == WordsHold(packed, c, f.clauseLen, RowAt(asgn, base, f))
  {
    ghost var row := RowAt(asgn, base, f);
    ClauseIsWords(packed, f, row, c);
    if f.clauseLen <= 0 || f.nVars <= 0 {
      return false;
    }
    for l := 0 to f.clauseLen
      invariant forall k :: 0 <= k < l ==> !LitHolds(row, f.clauses[c][k])
    {
      var lit := ReadLiteral(packed, f, c, l);
      if lit.v >= f.nVars {
        continue;
      }
      var byte := asgn[base + lit.v];
      assert byte == row[lit.v];
      var val := if lit.negated then Flip(byte) else byte;
      if val != 0 {
        assert LitHolds(row, f.clauses[c][l]);
        return true;
      }
    }
    return false;
  }

  method CountUnsat(asgn: array<Byte>, base: nat, packed: seq<i32>, f: Formula) returns (unsat: nat)
    requires f.Valid() && Encodes(packed, f) && base + f.nVars <= asgn.Length
    ensures unsat == Score(f, RowAt(asgn, base, f))
  {
    unsat := 0;
    for c := 0 to |f.clauses|
      invariant unsat == UnsatBelow(f, RowAt(asgn, base, f), c)
    {
      var sat := EvalClause(asgn, base, packed, f, c);
      if !sat {
        unsat := unsat + 1;
      }
    }
  }

  // The second scan of cu/satsolver.cu:188-200: `chosen` is never left at -1.
  method SelectUnsat(asgn: array<Byte>, base: nat, packed: seq<i32>, f: Formula, draw: nat) returns (chosen: int)
    requires f.Valid() && Encodes(packed, f) && base + f.nVars <= asgn.Length
    requires draw < Score(f, RowAt(asgn, base, f))
    ensures 0 <= chosen < |f.clauses|
    ensures chosen == NthUnsat(f, RowAt(asgn, base, f), draw, |f.clauses|)
  {
    ghost var row := RowAt(asgn, base, f);
    ghost var target := NthUnsat(f, row, draw, |f.clauses|);
    chosen := -1;
    var rank := draw;
    for c := 0 to |f.clauses|
      invariant chosen == -1 && c <= target && rank + UnsatBelow(f, row, c) == draw
    {
      var sat := EvalClause(asgn, base, packed, f, c);
      if !sat {
        if rank == 0 {
          chosen := c;
          NthUnsatUnique(f, row, c, target);
          break;
        }
        rank := rank - 1;
      }
    }
  }

  // The in-place flip of one variable of the row.
  method FlipInPlace(asgn: array<Byte>, base: nat, f: Formula, v: nat)
    requires v < f.nVars && base + f.nVars <= asgn.Length
    modifies asgn
    ensures RowAt(asgn, base, f) == Flipped(old(RowAt(asgn, base, f)), v)
    ensures asgn[..] == old(asgn[..])[base + v := Flip(old(asgn[base + v]))]
  {
    asgn[base + v] := Flip(asgn[base + v]);
  }

  // Break count of one candidate by trial flips (cu/satsolver.cu:230-240). Every flip is
  // undone: the whole buffer is as it was.
  method TrialBreaks(asgn: array<Byte>, base: nat, packed: seq<i32>, f: Formula, v: nat) returns (brk: nat)
    requires f.Valid() && Encodes(packed, f) && v < f.nVars && base + f.nVars <= asgn.Length
    modifies asgn
    ensures asgn[..] == old(asgn[..])
    ensures brk == Breaks(f, RowAt(asgn, base, f), v)
  {
    ghost var row := RowAt(asgn, base, f);
    ghost var before := asgn[..];
    brk := 0;
    FlipInPlace(asgn, base, f, v);
    ghost var flipped := asgn[..];
    for c := 0 to |f.clauses|
      invariant asgn[..] == flipped && RowAt(asgn, base, f) == Flipped(row, v)
      invariant brk == BreaksBelow(f, row, v, c)
    {
      var breaks := TrialClause(asgn, base, packed, f, v, c, row);
      brk := brk + if breaks then 1 else 0;
    }
    FlipInPlace(asgn, base, f, v);
    assert asgn[..] == before;
  }

  // One clause under the flipped row; an unsatisfied one is looked at again without the flip.
  method TrialClause(asgn: array<Byte>, base: nat, packed: seq<i32>, f: Formula, v: nat, c: nat, ghost row: seq<Byte>)
    returns (breaks: bool)
    requires f.Valid() && Encodes(packed, f) && v < f.nVars && c < |f.clauses| && base + f.nVars <= asgn.Length
    requires |row| == f.nVars && RowAt(asgn, base, f) == Flipped(row, v)
    modifies asgn
    ensures asgn[..] == old(asgn[..])
    ensures breaks <==> Holds(f, row, c) && !Holds(f, Flipped(row, v), c)
  {
    var sat := EvalClause(asgn, base, packed, f, c);
    breaks := false;
    if !sat {
      FlipInPlace(asgn, base, f, v);
      assert RowAt(asgn, base, f) == row;
      breaks := EvalClause(asgn, base, packed, f, c);
      FlipInPlace(asgn, base, f, v);
      assert asgn[..] == old(asgn[..]);
    }
  }

  method PickRandom(packed: seq<i32>, f: Formula, c: nat, rng: u32) returns (flipVar: int)
    requires f.Valid() && Encodes(packed, f) && c < |f.clauses|
    ensures flipVar == RandomTarget(f.clauses[c], f.nVars, rng)
  {
    ghost var clause := f.clauses[c];
    flipVar := -1;
    var validCount := 0;
    for l := 0 to f.clauseLen
      invariant validCount == ValidBelow(clause, f.nVars, l)
    {
      var lit := ReadLiteral(packed, f, c, l);
      if lit.v < f.nVars {
        validCount := validCount + 1;
      }
    }
    if validCount > 0 {
      var draw := LcgNext(rng) / 256 % validCount;
      var rank := draw;
      ghost var target := NthValid(clause, f.nVars, draw, |clause|);
      for l := 0 to f.clauseLen
        invariant flipVar == -1 && l <= target && rank + ValidBelow(clause, f.nVars, l) == draw
      {
        var lit := ReadLiteral(packed, f, c, l);
        if lit.v < f.nVars {
          if rank == 0 {
            NthValidUnique(clause, f.nVars, l, target);
            flipVar := lit.v;
            break;
          }
          rank := rank - 1;
        }
      }
    }
  }

  lemma NthValidUnique(clause: seq<Literal>, nVars: nat, k: nat, l: nat)
    requires k < |clause| && l < |clause| && clause[k].v < nVars && clause[l].v < nVars
    requires ValidBelow(clause, nVars, k) == ValidBelow(clause, nVars, l)
    ensures k == l
  {
    var lo, hi := if k < l then k else l, if k < l then l else k;
    if lo < hi {
      ValidBelowMonotone(clause, nVars, lo + 1, hi);
      assert false;
    }
  }

  lemma {:induction false} ValidBelowMonotone(clause: seq<Literal>, nVars: nat, m: nat, n: nat)
    requires m <= n <= |clause|
    ensures ValidBelow(clause, nVars, m) <= ValidBelow(clause, nVars, n)
    decreases n
  {
    if m < n {
      ValidBelowMonotone(clause, nVars, m, n - 1);
    }
  }

  method PickGreedy(asgn: array<Byte>, base: nat, packed: seq<i32>, f: Formula, c: nat) returns (flipVar: int)
    requires f.Valid() && Encodes(packed, f) && c < |f.clauses| && base + f.nVars <= asgn.Length
    modifies asgn
    ensures asgn[..] == old(asgn[..])
    ensures flipVar == GreedyTarget(f, RowAt(asgn, base, f), f.clauses[c])
  {
    ghost var clause := f.clauses[c];
    ghost var row := RowAt(asgn, base, f);
    flipVar := -1;
    var bestBreak: int := NoBreakYet(|f.clauses|);
    for l := 0 to f.clauseLen
      invariant asgn[..] == old(asgn[..]) && RowAt(asgn, base, f) == row
      invariant (bestBreak, flipVar) == GreedyBelow(f, row, clause, l)
    {
      var lit := ReadLiteral(packed, f, c, l);
      var v := lit.v;
      if v >= f.nVars {
        continue;
      }
      var brk := TrialBreaks(asgn, base, packed, f, v);
      if brk < bestBreak {
        bestBreak := brk;
        flipVar := v;
      }
    }
  }

  // The body of satsolver_step on the row at `base`, from the seeded generator state.
  method StepInPlace(asgn: array<Byte>, base: nat, packed: seq<i32>, f: Formula, start: u32) returns (score: nat)
    requires f.Valid() && Encodes(packed, f) && base + f.nVars <= asgn.Length
    modifies asgn
    ensures RowAt(asgn, base, f) == StepRow(f, old(RowAt(asgn, base, f)), start)
    ensures forall i :: 0 <= i < asgn.Length && !(base <= i < base + f.nVars) ==> asgn[i] == old(asgn[i])
    ensures score == Score(f, RowAt(asgn, base, f))
  {
    ghost var row := RowAt(asgn, base, f);
    var unsatCount := CountUnsat(asgn, base, packed, f);
    if unsatCount == 0 {
      return 0;
    }

    var rng := DrawAccepted(start, unsatCount);
    var chosen := SelectUnsat(asgn, base, packed, f, rng % unsatCount);
    rng := LcgNext(rng);

    var flipVar := -1;
    if TakesRandomWalk(rng) {
      flipVar := PickRandom(packed, f, chosen, rng);
    } else {
      flipVar := PickGreedy(asgn, base, packed, f, chosen);
    }
    assert RowAt(asgn, base, f) == row;
    assert flipVar == FlipTarget(f, row, start);
    if flipVar >= 0 {
      FlipInPlace(asgn, base, f, flipVar);
    }
    score := CountUnsat(asgn, base, packed, f);
  }

  // The body of satsolver_init on the row at `base`.
  method InitInPlace(asgn: array<Byte>, base: nat, packed: seq<i32>, f: Formula, start: u32) returns (score: nat)
    requires f.Valid() && Encodes(packed, f) && base + f.nVars <= asgn.Length
    modifies asgn
    ensures RowAt(asgn, base, f) == InitRow(f.nVars, start)
    ensures forall i :: 0 <= i < asgn.Length && !(base <= i < base + f.nVars) ==> asgn[i] == old(asgn[i])
    ensures score == Score(f, RowAt(asgn, base, f))
  {
    var rng := start;
    for v := 0 to f.nVars
      invariant rng == Advance(start, v)
      invariant forall i :: 0 <= i < v ==> asgn[base + i] == InitRow(f.nVars, start)[i]
      invariant forall i :: 0 <= i < asgn.Length && !(base <= i < base + f.nVars) ==> asgn[i] == old(asgn[i])
    {
      AdvanceSplit(start, v, 1);
      rng := LcgNext(rng);
      asgn[base + v] := rng / 65536 % 2;
    }
    assert RowAt(asgn, base, f) == InitRow(f.nVars, start);
    score := CountUnsat(asgn, base, packed, f);
  }

  // The assignment buffer has a row per walker and there is a score slot for each.
  ghost predicate BuffersFit(asgn: seq<Byte>, scores: seq<i32>, f: Formula, nWalkers: nat) {
    nWalkers * f.nVars <= |asgn| && nWalkers <= |scores|
  }

  ghost function WalkerRow(asgn: seq<Byte>, walker: nat, f: Formula, nWalkers: nat): (row: seq<Byte>)
    requires walker < nWalkers && nWalkers * f.nVars <= |asgn|
    ensures |row| == f.nVars
  {
    RowInside(walker, nWalkers, f.nVars);
    Row(asgn, walker, f.nVars)
  }

  // Buffers after the thread of `walker` replaced its row and score.
  ghost predicate WalkerMoved(asgn: seq<Byte>, scores: seq<i32>, asgn': seq<Byte>, scores': seq<i32>,
                              f: Formula, nWalkers: nat, walker: nat, row: seq<Byte>)
    requires f.Valid() && BuffersFit(asgn, scores, f, nWalkers)
  {
    if walker >= nWalkers then asgn' == asgn && scores' == scores
    else
      && OnlyRowChanged(asgn, asgn', walker, f.nVars)
      && WalkerRow(asgn', walker, f, nWalkers) == row
      && scores' == scores[walker := Score(f, row)]
  }

  lemma MovedInPlace(asgn: seq<Byte>, scores: seq<i32>, asgn': seq<Byte>, f: Formula, nWalkers: nat,
                     walker: nat, base: nat, row: seq<Byte>)
    requires f.Valid() && BuffersFit(asgn, scores, f, nWalkers) && walker < nWalkers
    requires base == walker * f.nVars && base + f.nVars <= |asgn| == |asgn'|
    requires asgn'[base..base + f.nVars] == row
    requires forall i :: 0 <= i < |asgn| && !(base <= i < base + f.nVars) ==> asgn'[i] == asgn[i]
    ensures WalkerMoved(asgn, scores, asgn', scores[walker := Score(f, row)], f, nWalkers, walker, row)
  {
  }

  // One thread of satsolver_init; threads past the last walker return at once.
  method InitThread(asgn: array<Byte>, scores: array<i32>, packed: seq<i32>, f: Formula,
                    nWalkers: nat, seed: u32, walker: nat)
    requires f.Valid() && Encodes(packed, f) && BuffersFit(asgn[..], scores[..], f, nWalkers)
    modifies asgn, scores
    ensures WalkerMoved(old(asgn[..]), old(scores[..]), asgn[..], scores[..], f, nWalkers, walker,
      InitRow(f.nVars, InitState(seed, walker)))
  {
    if walker >= nWalkers {
      return;
    }
    RowInside(walker, nWalkers, f.nVars);
    ghost var before := asgn[..];
    var base := walker * f.nVars;
    var score := InitInPlace(asgn, base, packed, f, InitState(seed, walker));
    scores[walker] := score;
    MovedInPlace(before, old(scores[..]), asgn[..], f, nWalkers, walker, base, RowAt(asgn, base, f));
  }

  // One thread of satsolver_step.
  method StepThread(asgn: array<Byte>, scores: array<i32>, packed: seq<i32>, f: Formula,
                    nWalkers: nat, seed: u32, walker: nat)
    requires f.Valid() && Encodes(packed, f) && BuffersFit(asgn[..], scores[..], f, nWalkers)
    modifies asgn, scores
    ensures WalkerMoved(old(asgn[..]), old(scores[..]), asgn[..], scores[..], f, nWalkers, walker,
      if walker < nWalkers then StepRow(f, WalkerRow(old(asgn[..]), walker, f, nWalkers), StepState(seed, walker)) else [])
  {
    if walker >= nWalkers {
      return;
    }
    RowInside(walker, nWalkers, f.nVars);
    ghost var before := asgn[..];
    var base := walker * f.nVars;
    assert WalkerRow(before, walker, f, nWalkers) == RowAt(asgn, base, f);
    var score := StepInPlace(asgn, base, packed, f, StepState(seed, walker));
    scores[walker] := score;
    MovedInPlace(before, old(scores[..]), asgn[..], f, nWalkers, walker, base, RowAt(asgn, base, f));
  }
}
