// What the random draws of a walker decide (cu/satsolver.cu:120-127, :172, :204-218).

module SatDraws {
  import opened Words
  import opened Lcg
  import opened SatFormula
  import opened SatStep

  // ---- different walkers draw from different states ----

  lemma SameMultiple(k: int)
    requires -TWO32 < TWO32 * k < TWO32
    ensures k == 0
  {
  }

  // Multiplying by a number with an inverse modulo 2^32 keeps words apart.
  lemma ProductsApart(x: u32, y: u32, m: int, inverse: int, turns: int)
    requires m * inverse == 1 + TWO32 * turns && WrapU32(x * m) == WrapU32(y * m)
    ensures x == y
  {
    var k := x * m / TWO32 - y * m / TWO32;
    assert x * m - y * m == TWO32 * k;
    Cancelled(x - y, m, inverse, turns, k);
    SameMultiple(k * inverse - (x - y) * turns);
  }

  lemma Cancelled(d: int, m: int, inverse: int, turns: int, k: int)
    requires m * inverse == 1 + TWO32 * turns && d * m == TWO32 * k
    ensures d == TWO32 * (k * inverse - d * turns)
  {
    assert d * m * inverse == d * (m * inverse);
    assert d * (1 + TWO32 * turns) == d + TWO32 * (d * turns);
    assert TWO32 * k * inverse == TWO32 * (k * inverse);
  }

  lemma NextApart(x: u32, y: u32)
    requires LcgNext(x) == LcgNext(y)
    ensures x == y
  {
    var k := (1664525 * x + 1013904223) / TWO32 - (1664525 * y + 1013904223) / TWO32;
    assert x * 1664525 - y * 1664525 == TWO32 * k;
    WrapCongruent(x * 1664525, y * 1664525, k);
    ProductsApart(x, y, 1664525, 4276115653, 1657219);
  }

  lemma StatesApart(seed: u32, x: u32, y: u32)
    requires Xor(seed, x, 32) < TWO32 && Xor(seed, y, 32) < TWO32
    requires LcgNext(Xor(seed, x, 32)) == LcgNext(Xor(seed, y, 32))
    ensures x == y
  {
    NextApart(Xor(seed, x, 32), Xor(seed, y, 32));
    Pow2Of32();
    XorApart(seed, x, y, 32);
  }

  // For one seed two walkers start, and step, from different states.
  lemma WalkersDiffer(seed: u32, a: u32, b: u32)
    requires a != b
    ensures InitState(seed, a) != InitState(seed, b) && StepState(seed, a) != StepState(seed, b)
  {
    Pow2Of32();
    if InitState(seed, a) == InitState(seed, b) {
      StatesApart(seed, WrapU32(a * 2654435761), WrapU32(b * 2654435761));
      ProductsApart(a, b, 2654435761, 244002641, 150801925);
    }
    if StepState(seed, a) == StepState(seed, b) {
      StatesApart(seed, WrapU32(a * 2246822519), WrapU32(b * 2246822519));
      ProductsApart(a, b, 2246822519, 3066638151, 1604247758);
    }
  }

  // ---- what is read off a draw ----

  lemma BitFour(word: nat, b: nat)
    ensures Bit(word, b + 4) == Bit(word / 16, b)
  {
    var half, quarter := word / 2, word / 4;
    assert Bit(word, b + 4) == Bit(half, b + 3) == Bit(half / 2, b + 2);
    assert half / 2 == quarter;
    assert Bit(quarter, b + 2) == Bit(quarter / 2, b + 1) == Bit(quarter / 2 / 2, b);
    assert quarter / 2 / 2 == word / 16;
  }

  lemma BitSixteen(word: nat)
    ensures Bit(word, 16) == word / 65536 % 2
  {
    BitFour(word, 12);
    BitFour(word / 16, 8);
    BitFour(word / 16 / 16, 4);
    BitFour(word / 16 / 16 / 16, 0);
    assert word / 16 / 16 / 16 / 16 == word / 65536;
  }

  // Initialisation sets variable v to bit 16 of the (v + 1)-th draw.
  lemma InitReadsBitSixteen(nVars: nat, start: u32, v: nat)
    requires v < nVars
    ensures InitRow(nVars, start)[v] == Bit(Advance(start, v + 1), 16)
  {
    BitSixteen(Advance(start, v + 1));
  }

  // A step is random for the 24-bit draws below 9563013, the multiple of 2^-24 nearest to 0.57.
  lemma WalkThresholdIsNearest(rng: u32)
    ensures TakesRandomWalk(rng) <==> rng < 256 * 9563013
    ensures -0.5 <= 16777216.0 * 0.57 - 9563013.0 <= 0.5
  {
  }

  ghost function ValidBefore(clause: seq<Literal>, nVars: nat, l: nat): (positions: set<nat>)
    requires l <= |clause|
    ensures forall i: nat :: i in positions <==> i < l && clause[i].v < nVars
  {
    set i: nat | i < l && clause[i].v < nVars
  }

  lemma {:induction false} ValidIsCardinality(clause: seq<Literal>, nVars: nat, l: nat)
    requires l <= |clause|
    ensures ValidBelow(clause, nVars, l) == |ValidBefore(clause, nVars, l)|
    decreases l
  {
    if l > 0 {
      ValidIsCardinality(clause, nVars, l - 1);
      var before := ValidBefore(clause, nVars, l - 1);
      if clause[l - 1].v < nVars {
        assert ValidBefore(clause, nVars, l) == before + {l - 1};
      } else {
        assert ValidBefore(clause, nVars, l) == before;
      }
    }
  }

  // Literal l is valid, with `rank` valid literals before it.
  ghost predicate HasRank(clause: seq<Literal>, nVars: nat, l: nat, rank: nat)
    requires l < |clause|
  {
    clause[l].v < nVars && |ValidBefore(clause, nVars, l)| == rank
  }

  // The random branch picks the valid literal that has as many valid literals before it as the
  // upper 24 bits of the next draw leave modulo their number; there is none to pick exactly when
  // no literal is valid.
  lemma RandomPicksDrawn(clause: seq<Literal>, nVars: nat, rng: u32)
    ensures
      var count := |ValidBefore(clause, nVars, |clause|)|;
      if count == 0 then RandomTarget(clause, nVars, rng) == -1
      else exists l: nat :: l < |clause| && HasRank(clause, nVars, l, LcgNext(rng) / 256 % count)
                            && RandomTarget(clause, nVars, rng) == clause[l].v
  {
    ValidIsCardinality(clause, nVars, |clause|);
    var count := ValidBelow(clause, nVars, |clause|);
    if count > 0 {
      var l := NthValid(clause, nVars, LcgNext(rng) / 256 % count, |clause|);
      ValidIsCardinality(clause, nVars, l);
      assert HasRank(clause, nVars, l, LcgNext(rng) / 256 % count);
    }
  }
}
