// What a similarity score is, apart from how it is computed, and where routing sends a query
// (cu/vector_similarity.cu:26-57, :187-289).

module CosineLaws {
  import opened Reals
  import opened Launch
  import opened Folds
  import opened Cosine
  import opened CosineKernels
  import opened TopKBlock

  lemma OneTermMore(terms: seq<Sums>, term: Sums)
    ensures Fold(Add, ZERO, terms + [term]) == Add(Fold(Add, ZERO, terms), term)
  {
    AddIsMonoid();
    FoldAppend(Add, ZERO, terms, term);
  }

  function DotSums(q: seq<real>, k: seq<real>, n: nat): Sums
    requires n <= |q| && n <= |k|
  {
    Sums(FlatDot(q, 0, k, 0, n), FlatDot(q, 0, q, 0, n), FlatDot(k, 0, k, 0, n))
  }

  lemma DotSumsGrow(q: seq<real>, k: seq<real>, n: nat)
    requires 0 < n <= |q| && n <= |k|
    ensures DotSums(q, k, n) == Add(DotSums(q, k, n - 1), Term(q[n - 1], k[n - 1]))
  {
  }

  lemma {:induction false} SumsAreDots(q: seq<real>, k: seq<real>, n: nat)
    requires |q| == |k| && n <= |q|
    ensures Fold(Add, ZERO, Terms(q, k)[..n]) == DotSums(q, k, n)
    decreases n
  {
    if n > 0 {
      var before, last := Terms(q, k)[..n - 1], Terms(q, k)[n - 1];
      SumsAreDots(q, k, n - 1);
      OneTermMore(before, last);
      DotSumsGrow(q, k, n);
      assert Terms(q, k)[..n] == before + [last];
    }
  }

  function Dot(q: seq<real>, k: seq<real>): real
    requires |q| == |k|
  {
    FlatDot(q, 0, k, 0, |q|)
  }

  lemma PairSumsAreDots(q: seq<real>, k: seq<real>)
    requires |q| == |k|
    ensures PairSums(q, k) == Sums(Dot(q, k), Dot(q, q), Dot(k, k))
    ensures Dot(q, q) >= 0.0 && Dot(k, k) >= 0.0
  {
    SumsAreDots(q, k, |q|);
    assert Terms(q, k)[..|q|] == Terms(q, k);
    NormsNonNegative(q, k);
  }

  // A score times the norms plus 1e-8 is the dot product; n and m are the sums of squares.
  ghost predicate ScoresAs(sqrt: real -> real, score: real, dot: real, n: real, m: real) {
    score * (sqrt(n) * sqrt(m) + 0.00000001) == dot
  }

  lemma ScoreTimesNorms(sqrt: real -> real, q: seq<real>, k: seq<real>)
    requires |q| == |k| && NonNegative(sqrt)
    ensures ScoresAs(sqrt, Score(sqrt, q, k), Dot(q, k), Dot(q, q), Dot(k, k))
  {
    PairSumsAreDots(q, k);
    DenominatorPositive(sqrt, PairSums(q, k));
    QuotientTimes(Dot(q, k), sqrt(Dot(q, q)) * sqrt(Dot(k, k)) + 0.00000001);
  }

  lemma QuotientTimes(x: real, d: real)
    requires d > 0.0
    ensures x / d * d == x
  {
  }

  lemma DotIsFlat(xs: seq<real>, x: nat, ys: seq<real>, y: nat, dim: nat)
    requires x + dim <= |xs| && y + dim <= |ys|
    ensures Dot(xs[x..x + dim], ys[y..y + dim]) == FlatDot(xs, x, ys, y, dim)
  {
    FlatDotOfSlices(xs, x, ys, y, dim, dim);
  }

  lemma PairIsSlices(sqrt: real -> real, b: Batch, q: nat, k: nat, x: nat, y: nat)
    requires BatchFits(b) && NonNegative(sqrt) && q < b.nQueries && k < b.nKeys && x == q * b.dim && y == k * b.dim
    ensures x + b.dim <= |b.queries| && y + b.dim <= |b.keys|
    ensures PairAt(sqrt, b, q, k) == Score(sqrt, b.queries[x..x + b.dim], b.keys[y..y + b.dim])
  {
    RowInside(q, b.nQueries, b.dim);
    RowInside(k, b.nKeys, b.dim);
  }

  // The batch's cell (q, k) scores row q of the queries, from x on, against row k of the keys, from
  // y on.
  lemma PairTimesNorms(sqrt: real -> real, b: Batch, q: nat, k: nat, x: nat, y: nat)
    requires BatchFits(b) && NonNegative(sqrt) && q < b.nQueries && k < b.nKeys && x == q * b.dim && y == k * b.dim
    ensures x + b.dim <= |b.queries| && y + b.dim <= |b.keys|
    ensures
      var n, m := FlatDot(b.queries, x, b.queries, x, b.dim), FlatDot(b.keys, y, b.keys, y, b.dim);
      ScoresAs(sqrt, PairAt(sqrt, b, q, k), FlatDot(b.queries, x, b.keys, y, b.dim), n, m)
  {
    PairIsSlices(sqrt, b, q, k, x, y);
    var query, key := b.queries[x..x + b.dim], b.keys[y..y + b.dim];
    DotIsFlat(b.queries, x, b.keys, y, b.dim);
    DotIsFlat(b.queries, x, b.queries, x, b.dim);
    DotIsFlat(b.keys, y, b.keys, y, b.dim);
    ScoreTimesNorms(sqrt, query, key);
  }

  // ---- opposite and equal vectors ----

  ghost predicate TrueRoot(sqrt: real -> real) {
    NonNegative(sqrt) && forall x :: x >= 0.0 ==> sqrt(x) * sqrt(x) == x
  }

  function Opposite(k: seq<real>): (o: seq<real>)
    ensures |o| == |k|
  {
    seq(|k|, i requires 0 <= i < |k| => -k[i])
  }

  lemma {:induction false} DotOfOpposite(q: seq<real>, k: seq<real>, n: nat)
    requires |q| == |k| && n <= |q|
    ensures FlatDot(q, 0, Opposite(k), 0, n) == -FlatDot(q, 0, k, 0, n)
    ensures FlatDot(Opposite(k), 0, Opposite(k), 0, n) == FlatDot(k, 0, k, 0, n)
    decreases n
  {
    if n > 0 {
      DotOfOpposite(q, k, n - 1);
      assert q[n - 1] * -k[n - 1] == -(q[n - 1] * k[n - 1]);
      assert -k[n - 1] * -k[n - 1] == k[n - 1] * k[n - 1];
    }
  }

  lemma OppositeScores(sqrt: real -> real, q: seq<real>, k: seq<real>)
    requires |q| == |k| && NonNegative(sqrt)
    ensures Score(sqrt, q, Opposite(k)) == -Score(sqrt, q, k)
  {
    PairSumsAreDots(q, k);
    PairSumsAreDots(q, Opposite(k));
    DotOfOpposite(q, k, |q|);
    OppositeSums(sqrt, PairSums(q, k), PairSums(q, Opposite(k)));
  }

  lemma OppositeSums(sqrt: real -> real, s: Sums, o: Sums)
    requires s.normQ >= 0.0 && s.normK >= 0.0 && NonNegative(sqrt) && o == Sums(-s.dot, s.normQ, s.normK)
    ensures CosineScore(sqrt, o) == -CosineScore(sqrt, s)
  {
    DenominatorPositive(sqrt, s);
    QuotientOfOpposite(s.dot, sqrt(s.normQ) * sqrt(s.normK) + SHIP_EPS);
  }

  lemma QuotientOfOpposite(x: real, d: real)
    requires d > 0.0
    ensures (-x) / d == -(x / d)
  {
    var q := x / d;
    assert q * d == x && (-q) * d == -x;
  }

  // A vector scores N / (N + 1e-8) against itself, N being the sum of its squares.
  lemma SelfScore(sqrt: real -> real, q: seq<real>)
    requires TrueRoot(sqrt)
    ensures Dot(q, q) >= 0.0 && Score(sqrt, q, q) == Dot(q, q) / (Dot(q, q) + 0.00000001)
  {
    PairSumsAreDots(q, q);
    assert sqrt(Dot(q, q)) * sqrt(Dot(q, q)) == Dot(q, q);
  }

  lemma {:induction false} NonZeroNorm(q: seq<real>, n: nat, i: nat)
    requires i < n <= |q| && q[i] != 0.0
    ensures FlatDot(q, 0, q, 0, n) > 0.0
    decreases n
  {
    if i < n - 1 {
      NonZeroNorm(q, n - 1, i);
      assert q[n - 1] * q[n - 1] >= 0.0;
    } else {
      SquaresNonNegative(q, n - 1);
      SquarePositive(q[n - 1], FlatDot(q, 0, q, 0, n) - FlatDot(q, 0, q, 0, n - 1));
    }
  }

  lemma SquarePositive(x: real, square: real)
    requires x != 0.0 && square == x * x
    ensures square > 0.0
  {
    var r := if x > 0.0 then x else -x;
    assert square == r * r;
    ProductPositive(r, r, square);
  }

  lemma {:induction false} SquaresNonNegative(q: seq<real>, n: nat)
    requires n <= |q|
    ensures FlatDot(q, 0, q, 0, n) >= 0.0
    decreases n
  {
    if n > 0 {
      SquaresNonNegative(q, n - 1);
      assert q[n - 1] * q[n - 1] >= 0.0;
    }
  }

  lemma OwnScoreWins(sqrt: real -> real, q: seq<real>, i: nat)
    requires TrueRoot(sqrt) && i < |q| && q[i] != 0.0
    ensures Score(sqrt, q, q) > 0.0 > Score(sqrt, q, Opposite(q))
  {
    NonZeroNorm(q, |q|, i);
    SelfScore(sqrt, q);
    OppositeScores(sqrt, q, q);
    QuotientPositive(Dot(q, q), Dot(q, q) + 0.00000001);
  }

  lemma QuotientPositive(x: real, d: real)
    requires x > 0.0 && d > 0.0
    ensures x / d > 0.0
  {
    var r := x / d;
    assert r * d == x;
    assert r <= 0.0 ==> r * d <= 0.0;
  }

  // Slot 0 of a selection holds the key whose score is above all others.
  lemma BestKeyFirst(scores: seq<real>, slots: seq<int>, best: nat)
    requires IsTopK(scores, slots) && slots != [] && best < |scores|
    requires forall k :: 0 <= k < |scores| && k != best ==> scores[k] < scores[best]
    ensures slots[0] == best
  {
    var n := SelectedCount(|slots|, |scores|);
    TopKMeaning(scores, slots, n);
    if best in slots[..n] {
      var t :| 0 <= t < n && slots[..n][t] == best;
      assert slots[t] == best;
    }
  }

  // Routing a nonzero query among itself and its opposite puts itself in slot 0, wherever it is.
  lemma RoutesToItself(sqrt: real -> real, b: Batch, similarities: seq<real>, out: seq<int>, topK: nat, q: nat, self: nat, i: nat)
    requires BatchFits(b) && TrueRoot(sqrt) && q < b.nQueries && b.nKeys == 2 && topK > 0 && self < 2 && i < b.dim
    requires CellCount(b) <= |similarities| && SlotCount(b, topK) <= |out| && Routed(sqrt, b, similarities, out, topK, q)
    requires 0 <= q * b.dim <= q * b.dim + b.dim <= |b.queries|
    requires
      var x := Row(b.queries, q, b.dim);
      && x[i] != 0.0 && b.keys[self * b.dim..self * b.dim + b.dim] == x
      && b.keys[(1 - self) * b.dim..(1 - self) * b.dim + b.dim] == Opposite(x)
    ensures 0 <= q * topK < |out| && out[q * topK] == self
  {
    RowInside(q, b.nQueries, topK);
    RowInside(self, 2, b.dim);
    RowInside(1 - self, 2, b.dim);
    var x, row := Row(b.queries, q, b.dim), QueryRow(sqrt, b, q);
    OwnScoreWins(sqrt, x, i);
    assert Row(b.keys, self, b.dim) == x && Row(b.keys, 1 - self, b.dim) == Opposite(x);
    assert row[self] == Score(sqrt, x, x) && row[1 - self] == Score(sqrt, x, Opposite(x));
    BestKeyFirst(row, Row(out, q, topK), self);
    assert Row(out, q, topK)[0] == out[q * topK];
  }
}
