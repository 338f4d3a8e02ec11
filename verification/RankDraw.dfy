// Drawing an unbiased rank below `u` from the generator by rejection
// (cu/satsolver.cu:186-190): draws under a threshold are thrown away, so that every
// rank keeps the same number of 32-bit representatives.

module RankDraw {
  import opened Words
  import opened Lcg

  // (0u - u) % u
  function Threshold(u: u32): u32
    requires u > 0
  {
    WrapU32(0 - u) % u
  }

  lemma ThresholdIsResidue(u: u32)
    requires u > 0
    ensures Threshold(u) == TWO32 % u < u
    ensures TWO32 == Threshold(u) + TWO32 / u * u
  {
    var q, r := TWO32 / u, TWO32 % u;
    assert TWO32 == q * u + r;
    if u == 1 {
    } else {
      assert WrapU32(0 - u) == TWO32 - u == (q - 1) * u + r;
      DivModUnique(TWO32 - u, u, q - 1, r);
    }
  }

  // ---- termination and meaning of the do/while loop ----

  // The first state at or above the threshold, looking at most `fuel` draws ahead.
  ghost function AcceptWithin(state: u32, threshold: u32, fuel: nat): (s: u32)
    requires threshold <= Advance(state, fuel)
    decreases fuel
  {
    if threshold <= state then state else AcceptWithin(LcgNext(state), threshold, fuel - 1)
  }

  // The full period makes the largest state, which every threshold accepts, reachable.
  ghost function StepsToTop(state: u32): (n: nat)
    ensures n < TWO32
    ensures Advance(state, n) == TWO32 - 1
  {
    LcgReaches(state, TWO32 - 1);
    var n: nat :| n < TWO32 && Advance(state, n) == TWO32 - 1;
    n
  }

  lemma {:induction false} AcceptWithinIsFirst(state: u32, threshold: u32, fuel: nat) returns (n: nat)
    requires threshold <= Advance(state, fuel)
    ensures n <= fuel
    ensures AcceptWithin(state, threshold, fuel) == Advance(state, n) >= threshold
    ensures forall j: nat :: j < n ==> Advance(state, j) < threshold
    decreases fuel
  {
    if threshold <= state {
      n := 0;
    } else {
      n := AcceptWithinIsFirst(LcgNext(state), threshold, fuel - 1);
      n := n + 1;
      forall j: nat | j < n ensures Advance(state, j) < threshold {
        if j > 0 {
          assert Advance(state, j) == Advance(LcgNext(state), j - 1);
        }
      }
    }
  }

  // What the loop leaves in the generator: its next state that is not rejected.
  ghost function AcceptedDraw(state: u32, u: u32): u32
    requires u > 0
  {
    AcceptWithin(LcgNext(state), Threshold(u), StepsToTop(LcgNext(state)))
  }

  // The draw is accepted, everything before it was rejected, and it comes within one
  // period of the generator.
  lemma AcceptedDrawIsFirst(state: u32, u: u32)
    requires u > 0
    ensures Threshold(u) <= AcceptedDraw(state, u)
    ensures exists n: nat {:trigger Advance(state, n)} ::
        && 1 <= n <= TWO32
        && AcceptedDraw(state, u) == Advance(state, n)
        && (forall j: nat {:trigger Advance(state, j)} :: 1 <= j < n ==> Advance(state, j) < Threshold(u))
  {
    var first := LcgNext(state);
    var n := AcceptWithinIsFirst(first, Threshold(u), StepsToTop(first));
    assert Advance(state, n + 1) == Advance(first, n);
    forall j: nat {:trigger Advance(state, j)} | 1 <= j < n + 1 ensures Advance(state, j) < Threshold(u) {
      assert Advance(state, j) == Advance(first, j - 1);
    }
  }

  // do { rng = lcg_next(rng); } while (rng < threshold);
  method DrawAccepted(state: u32, u: u32) returns (rng: u32)
    requires u > 0
    ensures rng == AcceptedDraw(state, u)
  {
    var threshold := Threshold(u);
    rng := LcgNext(state);
    ghost var left := StepsToTop(rng);
    ghost var result := AcceptWithin(rng, threshold, left);
    while rng < threshold
      invariant threshold <= Advance(rng, left)
      invariant result == AcceptWithin(rng, threshold, left)
      decreases left
    {
      rng := LcgNext(rng);
      left := left - 1;
    }
  }

  // ---- no rank is favoured ----

  function Representatives(lo: int, hi: int, u: int, rank: int): set<int>
    requires u > 0
  {
    set x: int | lo <= x < hi && x % u == rank
  }

  // One representative in each stretch of u consecutive numbers.
  lemma OneInStretch(mid: int, u: int, rank: int) returns (x: int)
    requires 0 <= rank < u
    ensures Representatives(mid, mid + u, u, rank) == {x}
  {
    var k, s := (rank - mid) / u, (rank - mid) % u;
    x := mid + s;
    assert x == (0 - k) * u + rank by { assert rank - mid == k * u + s; }
    DivModUnique(x, u, 0 - k, rank);
    forall y | mid <= y < mid + u && y % u == rank ensures y == x {
      assert y == y / u * u + rank;
      assert (y / u + k) * u == y - x;
      SmallMultipleIsZero(y / u + k, u);
    }
  }

  lemma {:induction false} StretchesHoldOneEach(lo: int, q: nat, u: int, rank: int)
    requires 0 <= rank < u
    ensures |Representatives(lo, lo + q * u, u, rank)| == q
    decreases q
  {
    if q == 0 {
      assert Representatives(lo, lo + q * u, u, rank) == {};
    } else {
      var mid := lo + (q - 1) * u;
      assert mid + u == lo + q * u && lo <= mid;
      var x := OneInStretch(mid, u, rank);
      assert x in Representatives(mid, mid + u, u, rank);
      var before := Representatives(lo, mid, u, rank);
      assert Representatives(lo, mid + u, u, rank) == before + Representatives(mid, mid + u, u, rank);
      assert |before + {x}| == |before| + 1;
      StretchesHoldOneEach(lo, q - 1, u, rank);
    }
  }

  // Every rank below u has exactly floor(2^32 / u) accepted representatives, and the
  // accepted range contains nothing else.
  lemma DrawIsUniform(u: u32, rank: u32)
    requires rank < u
    ensures |Representatives(Threshold(u), TWO32, u, rank)| == TWO32 / u
    ensures Threshold(u) == TWO32 % u
  {
    ThresholdIsResidue(u);
    StretchesHoldOneEach(Threshold(u), TWO32 / u, u, rank);
  }
}
