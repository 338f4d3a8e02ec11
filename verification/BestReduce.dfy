// Finding the best walker: the pair reduction of the kernels and the sequential scan of the
// host oracle (cu/satsolver.cu:67-91; src/oracle.rs:214-222).

module BestReduce {
  import opened Words
  import opened Folds
  import opened GridReduce

  datatype Pair = Pair(score: i32, walker: i32)

  // score_pair_better: lower score, then lower walker.
  predicate PairBetter(x: Pair, y: Pair) {
    x.score < y.score || (x.score == y.score && x.walker < y.walker)
  }

  // Keep the lane's own pair unless the other one is better.
  function Best(mine: Pair, other: Pair): Pair {
    if PairBetter(other, mine) then other else mine
  }

  // What threads past the last walker contribute: INT_MAX twice.
  const PAD: Pair := Pair(0x7fff_ffff, 0x7fff_ffff)

  lemma BestIsMonoid()
    ensures Monoid(Best, PAD)
  {
    forall x, y ensures Commutes(Best, x, y) {}
    forall x, y, z ensures Associates(Best, x, y, z) {}
    forall x ensures Neutral(Best, PAD, x) {}
  }

  function WalkerPairs(scores: seq<i32>): (pairs: seq<Pair>)
    requires |scores| <= INT_MAX
    ensures |pairs| == |scores|
  {
    seq(|scores|, w requires 0 <= w < |scores| => Pair(scores[w], w))
  }

  // (score, walker) is the least score together with the first walker that has it.
  ghost predicate IsBestWalker(scores: seq<i32>, best: Pair) {
    && 0 <= best.walker < |scores|
    && scores[best.walker] == best.score
    && (forall w :: 0 <= w < |scores| ==> best.score <= scores[w])
    && (forall w :: 0 <= w < best.walker ==> best.score < scores[w])
  }

  lemma BestWalkerUnique(scores: seq<i32>, a: Pair, b: Pair)
    requires IsBestWalker(scores, a) && IsBestWalker(scores, b)
    ensures a == b
  {
  }

  lemma {:induction false} FoldIsBestWalker(scores: seq<i32>)
    requires 0 < |scores| <= INT_MAX
    ensures IsBestWalker(scores, Fold(Best, PAD, WalkerPairs(scores)))
    decreases |scores|
  {
    var n := |scores| - 1;
    assert WalkerPairs(scores) == WalkerPairs(scores[..n]) + [Pair(scores[n], n)];
    BestIsMonoid();
    FoldAppend(Best, PAD, WalkerPairs(scores[..n]), Pair(scores[n], n));
    if n > 0 {
      FoldIsBestWalker(scores[..n]);
    }
  }

  // The oracle's scan.
  method OracleBest(scores: seq<i32>) returns (best: Pair)
    requires 0 < |scores| <= INT_MAX
    ensures IsBestWalker(scores, best)
  {
    var bestScore: i32, bestWalker: i32 := scores[0], 0;
    for w := 1 to |scores|
      invariant IsBestWalker(scores[..w], Pair(bestScore, bestWalker))
    {
      var s := scores[w];
      if s < bestScore || (s == bestScore && w < bestWalker) {
        bestScore := s;
        bestWalker := w;
      }
    }
    assert scores[..|scores|] == scores;
    best := Pair(bestScore, bestWalker);
  }

  // The two-pass device reduction yields the same pair, for every grid that covers the
  // walkers and for all scores, INT_MAX included.
  method DeviceBest(scores: seq<i32>, shape: GridShape) returns (best: Pair)
    requires 0 < |scores| <= INT_MAX && Covers(shape, |scores|)
    ensures IsBestWalker(scores, best)
  {
    BestIsMonoid();
    best := TwoPassReduce(Best, PAD, WalkerPairs(scores), shape);
    FoldIsBestWalker(scores);
  }
}
